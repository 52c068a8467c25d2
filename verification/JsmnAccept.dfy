/** Which texts the tokenizer accepts: every text is printed documents or has a flaw, so the
    outcome of the parse says which. */
module JsmnAccept {
  import opened JsmnTree
  import opened Jsmn
  import opened JsmnPrint
  import opened JsmnFlaws
  import opened Texts
  import opened Wrappers
  import P = JsmnParser

  // ----- Growing a printed text at its end

  lemma {:induction false} GapSnoc(gap: Gap, sp: Space)
    ensures PrintGap(gap + [sp]) == PrintGap(gap) + PrintSpace(sp)
    ensures ValidGap(gap + [sp]) <==> ValidGap(gap) && ValidSpace(sp)
  {
    hide PrintSpace, ValidSpace;
    if gap == [] {
      assert gap + [sp] == [sp] && [sp][1..] == [];
    } else {
      assert (gap + [sp])[1..] == gap[1..] + [sp];
      GapSnoc(gap[1..], sp);
    }
  }

  lemma {:induction false} DocsSnoc(ds: seq<Doc>, d: Doc)
    ensures PrintAll(ds + [d]) == PrintAll(ds) + Print(d)
    ensures AllValid(ds + [d]) <==> AllValid(ds) && Valid(d)
  {
    hide Print, Valid;
    if ds == [] {
      assert ds + [d] == [d] && [d][1..] == [];
    } else {
      assert (ds + [d])[1..] == ds[1..] + [d];
      DocsSnoc(ds[1..], d);
    }
  }

  lemma {:induction false} LevelsSnoc(ls: seq<Level>, l: Level)
    ensures PrintLevels(ls + [l]) == PrintLevels(ls) + PrintLevel(l)
    ensures ValidLevels(ls + [l]) <==> ValidLevels(ls) && ValidLevel(l)
  {
    hide PrintLevel, ValidLevel;
    if ls == [] {
      assert ls + [l] == [l] && [l][1..] == [];
    } else {
      assert (ls + [l])[1..] == ls[1..] + [l];
      LevelsSnoc(ls[1..], l);
    }
  }

  predicate EndsBare(ds: seq<Doc>) {
    ds != [] && ds[|ds| - 1].Bare?
  }

  /** Only the gap behind the last document is open to change. */
  lemma {:induction false} DelimitedLast(ds: seq<Doc>, gap: Gap, closed: bool, gap': Gap, closed': bool)
    requires Delimited(ds, gap, closed)
    requires EndsBare(ds) ==> StartsBlank(gap') || (gap' == [] && closed')
    ensures Delimited(ds, gap', closed')
    decreases ds
  {
    if |ds| > 1 {
      DelimitedLast(ds[1..], gap, closed, gap', closed');
    }
  }

  lemma {:induction false} DelimitedSnoc(ds: seq<Doc>, d: Doc)
    requires Delimited(ds, d.before, false)
    ensures Delimited(ds + [d], [], true)
    decreases ds
  {
    if ds == [] {
      assert ds + [d] == [d] && [d][1..] == [];
    } else {
      assert (ds + [d])[1..] == ds[1..] + [d];
      DelimitedSnoc(ds[1..], d);
    }
  }

  // ----- The forms of a lexeme

  /** The longest run of string contents from `k` on. */
  lemma StringForm(js: string, k: nat, quote: char) returns (text: string)
    requires k <= |js|
    ensures Escaped(text, quote) && Occurs(js, k, text)
    ensures var e := k + |text|;
            e == |js| || js[e] == quote || (js[e] == '\\' && (e + 1 == |js| || js[e + 1] !in "\"'/\\bfrntu"))
    decreases |js| - k
  {
    if k == |js| || js[k] == quote {
      text := "";
    } else if js[k] != '\\' {
      var rest := StringForm(js, k + 1, quote);
      text := [js[k]] + rest;
      OccursFront(js, k, [js[k]], rest);
      assert text[1..] == rest;
    } else if k + 1 < |js| && js[k + 1] in "\"'/\\bfrntu" {
      var rest := StringForm(js, k + 2, quote);
      text := [js[k], js[k + 1]] + rest;
      OccursFront(js, k, [js[k], js[k + 1]], rest);
      assert text[2..] == rest;
    } else {
      text := "";
    }
  }

  lemma OccursFront(js: string, p: nat, a: string, b: string)
    requires p + |a| <= |js| && js[p..p + |a|] == a && Occurs(js, p + |a|, b)
    ensures Occurs(js, p, a + b)
  {
  }

  /** The longest run of primitive characters from `k` on. */
  lemma PrimitiveForm(js: string, k: nat) returns (text: string)
    requires k <= |js|
    ensures Plain(text) && Occurs(js, k, text)
    ensures var e := k + |text|;
            AtDelimiter(js, e) || js[e] > '~' || (js[e] < ' ' && js[e] !in "\t\n\r")
    decreases |js| - k
  {
    if k == |js| || js[k] in " \t\n\r:,]}" || js[k] > '~' || js[k] < ' ' {
      text := "";
    } else {
      var rest := PrimitiveForm(js, k + 1);
      text := [js[k]] + rest;
      OccursFront(js, k, [js[k]], rest);
    }
  }

  // ----- What has been read, and what comes next

  /** The text before `pos` is levels, documents and a gap. */
  predicate ReadSoFar(js: string, pos: nat, ls: seq<Level>, ds: seq<Doc>, gap: Gap) {
    && pos <= |js| && js[..pos] == PrintLevels(ls) + (PrintAll(ds) + PrintGap(gap))
    && ValidLevels(ls) && AllValid(ds) && ValidGap(gap) && Delimited(ds, gap, true)
    && (EndsBare(ds) && gap == [] ==> AtDelimiter(js, pos))
  }

  lemma PrefixGrows(js: string, pos: nat, w: string)
    requires Occurs(js, pos, w)
    ensures pos + |w| <= |js| && js[..pos + |w|] == js[..pos] + w
  {
  }

  lemma {:induction false} DelimitedEnd(ds: seq<Doc>, gap: Gap)
    requires Delimited(ds, gap, true) && EndsBare(ds)
    ensures StartsBlank(gap) || gap == []
    decreases ds
  {
    if |ds| > 1 {
      DelimitedEnd(ds[1..], gap);
    }
  }

  lemma SpaceAdded(js: string, pos: nat, ls: seq<Level>, ds: seq<Doc>, gap: Gap, sp: Space)
    requires ReadSoFar(js, pos, ls, ds, gap) && ValidSpace(sp) && Occurs(js, pos, PrintSpace(sp))
    requires EndsBare(ds) && gap == [] ==> sp.Blank?
    ensures ReadSoFar(js, pos + |PrintSpace(sp)|, ls, ds, gap + [sp])
  {
    hide PrintLevels, PrintAll, PrintGap, PrintSpace, ValidLevels, AllValid, ValidGap, ValidSpace, Delimited, Occurs,
         AtDelimiter;
    PrefixGrows(js, pos, PrintSpace(sp));
    GapSnoc(gap, sp);
    if EndsBare(ds) {
      DelimitedEnd(ds, gap);
    }
    DelimitedLast(ds, gap, true, gap + [sp], true);
    AssociateText(PrintLevels(ls), PrintAll(ds), PrintGap(gap), PrintSpace(sp));
  }

  lemma AssociateText(a: string, b: string, c: string, d: string)
    ensures (a + (b + c)) + d == a + (b + (c + d)) == a + ((b + c) + d)
  {
  }

  lemma DocAdded(js: string, pos: nat, ls: seq<Level>, ds: seq<Doc>, gap: Gap, d: Doc)
    requires ReadSoFar(js, pos, ls, ds, gap) && d.before == gap && Valid(d) && Occurs(js, pos, Word(d))
    requires !(EndsBare(ds) && gap == []) && (d.Bare? ==> AtDelimiter(js, pos + |Word(d)|))
    ensures ReadSoFar(js, pos + |Word(d)|, ls, ds + [d], [])
  {
    hide PrintLevels, PrintAll, PrintGap, ValidLevels, AllValid, ValidGap, Valid, Delimited, Occurs, AtDelimiter, Word;
    PrefixGrows(js, pos, Word(d));
    if EndsBare(ds) {
      DelimitedEnd(ds, gap);
    }
    DelimitedLast(ds, gap, true, gap, false);
    DelimitedSnoc(ds, d);
    DocsSnoc(ds, d);
    NoGap();
    AssociateText(PrintLevels(ls), PrintAll(ds), PrintGap(gap), Word(d));
    assert PrintAll(ds + [d]) + "" == PrintAll(ds) + (PrintGap(gap) + Word(d));
    assert ValidGap([]) by {
      NoGapValid();
    }
  }

  lemma NoGapValid()
    ensures ValidGap([]) && PrintGap([]) == "" && AllValid([]) && Delimited([], [], true) && PrintAll([]) == ""
  {
  }

  lemma LevelAdded(js: string, pos: nat, ls: seq<Level>, ds: seq<Doc>, gap: Gap, kind: Kind)
    requires ReadSoFar(js, pos, ls, ds, gap) && (kind == Object || kind == Array) && Occurs(js, pos, [Opener(kind)])
    requires !(EndsBare(ds) && gap == [])
    ensures ReadSoFar(js, pos + 1, ls + [Level(ds, gap, kind)], [], [])
  {
    hide PrintLevels, PrintAll, PrintGap, ValidLevels, AllValid, ValidGap, Delimited, Occurs, AtDelimiter, Opener;
    PrefixGrows(js, pos, [Opener(kind)]);
    if EndsBare(ds) {
      DelimitedEnd(ds, gap);
    }
    DelimitedLast(ds, gap, true, gap, false);
    LevelsSnoc(ls, Level(ds, gap, kind));
    NoGapValid();
    AssociateText(PrintLevels(ls), PrintAll(ds), PrintGap(gap), [Opener(kind)]);
    var before := PrintLevels(ls + [Level(ds, gap, kind)]);
    assert before + ("" + "") == before;
  }

  lemma LevelClosed(js: string, pos: nat, ls: seq<Level>, ds: seq<Doc>, gap: Gap)
    requires ReadSoFar(js, pos, ls, ds, gap) && ls != [] && Occurs(js, pos, [Closer(ls[|ls| - 1].kind)])
    ensures var l := ls[|ls| - 1]; var d := Bracket(l.gap, l.kind, ds, gap);
            ReadSoFar(js, pos + 1, ls[..|ls| - 1], l.items + [d], [])
  {
    hide PrintLevels, PrintAll, PrintGap, ValidLevels, AllValid, ValidGap, Delimited, Occurs, AtDelimiter, Opener,
         Closer;
    var outer, l := ls[..|ls| - 1], ls[|ls| - 1];
    var d := Bracket(l.gap, l.kind, ds, gap);
    var inner := PrintAll(ds) + PrintGap(gap);
    assert ls == outer + [l];
    LevelsSnoc(outer, l);
    PrefixGrows(js, pos, [Closer(l.kind)]);
    DocsSnoc(l.items, d);
    DelimitedSnoc(l.items, d);
    NoGapValid();
    assert js[..pos + 1] == PrintLevels(outer) + (PrintAll(l.items + [d]) + "") by {
      ClosedText(PrintLevels(outer), PrintAll(l.items), PrintGap(l.gap), Opener(l.kind), inner, Closer(l.kind));
    }
  }

  lemma ClosedText(a: string, b: string, c: string, o: char, inner: string, e: char)
    ensures ((a + ((b + c) + [o])) + inner) + [e] == a + ((b + (c + ([o] + (inner + [e])))) + "")
  {
  }

  /** The text is documents and a gap, or has a flaw behind such. */
  predicate Explained(js: string, ls: seq<Level>, ds: seq<Doc>, gap: Gap, f: Option<Flaw>) {
    && ValidLevels(ls) && AllValid(ds) && ValidGap(gap)
    && match f
       case None => ls == [] && Delimited(ds, gap, true) && js == PrintAll(ds) + PrintGap(gap)
       case Some(w) =>
         && IsFlaw(w, KindsOf(ls)) && Delimited(ds, gap, w.Unclosed? || w.Unmatched?)
         && js == PrintLevels(ls) + ((PrintAll(ds) + PrintGap(gap)) + PrintFlaw(w))
  }

  lemma FlawFound(js: string, pos: nat, ls: seq<Level>, ds: seq<Doc>, gap: Gap, f: Flaw)
    requires ReadSoFar(js, pos, ls, ds, gap) && js[pos..] == PrintFlaw(f) && IsFlaw(f, KindsOf(ls))
    requires f.Unclosed? || f.Unmatched? || !(EndsBare(ds) && gap == [])
    ensures Explained(js, ls, ds, gap, Some(f))
  {
    hide PrintLevels, PrintAll, PrintGap, ValidLevels, AllValid, ValidGap, Delimited, AtDelimiter, PrintFlaw, IsFlaw;
    if EndsBare(ds) {
      DelimitedEnd(ds, gap);
    }
    DelimitedLast(ds, gap, true, gap, f.Unclosed? || f.Unmatched?);
    assert js == js[..pos] + js[pos..];
    AssociateText(PrintLevels(ls), PrintAll(ds), PrintGap(gap), PrintFlaw(f));
  }

  /** After one more lexeme: what has been read then, or the flaw. */
  datatype Moved = Moved(pos: nat, ls: seq<Level>, ds: seq<Doc>, gap: Gap, flaw: Option<Flaw>)

  predicate Moves(js: string, pos: nat, m: Moved) {
    if m.flaw.None? then pos < m.pos && ReadSoFar(js, m.pos, m.ls, m.ds, m.gap)
    else Explained(js, m.ls, m.ds, m.gap, m.flaw)
  }

  lemma NextString(js: string, pos: nat, ls: seq<Level>, ds: seq<Doc>, gap: Gap) returns (m: Moved)
    requires ReadSoFar(js, pos, ls, ds, gap) && !(EndsBare(ds) && gap == []) && pos < |js| && js[pos] in "\"'"
    ensures Moves(js, pos, m)
  {
    hide ReadSoFar, Explained, Escaped, PrintAll, PrintLevels, PrintGap, ValidGap, AllValid, ValidLevels, Delimited;
    var quote := js[pos];
    var text := StringForm(js, pos + 1, quote);
    var e := pos + 1 + |text|;
    assert js[pos + 1..e] == text;
    if e < |js| && js[e] == quote {
      var d := Quoted(gap, quote, text);
      assert js[pos..e + 1] == [quote] + (js[pos + 1..e] + [quote]);
      GapValid(js, pos, ls, ds, gap);
      DocAdded(js, pos, ls, ds, gap, d);
      m := Moved(e + 1, ls, ds + [d], [], None);
    } else if e == |js| {
      assert js[pos..] == [quote] + js[pos + 1..e];
      m := Moved(pos, ls, ds, gap, Some(OpenString(quote, text)));
      FlawFound(js, pos, ls, ds, gap, m.flaw.value);
    } else {
      assert js[pos..] == [quote] + (js[pos + 1..e] + ("\\" + js[e + 1..]));
      m := Moved(pos, ls, ds, gap, Some(BadEscape(quote, text, js[e + 1..])));
      FlawFound(js, pos, ls, ds, gap, m.flaw.value);
    }
  }

  lemma GapValid(js: string, pos: nat, ls: seq<Level>, ds: seq<Doc>, gap: Gap)
    requires ReadSoFar(js, pos, ls, ds, gap)
    ensures ValidGap(gap)
  {
  }

  lemma NextPrimitive(js: string, pos: nat, ls: seq<Level>, ds: seq<Doc>, gap: Gap) returns (m: Moved)
    requires ReadSoFar(js, pos, ls, ds, gap) && !(EndsBare(ds) && gap == []) && pos < |js|
    requires StartsPrimitive(js[pos]) && js[pos] !in " \t\n\r:,]}"
    ensures Moves(js, pos, m)
  {
    hide ReadSoFar, Explained, PrintAll, PrintLevels, PrintGap, ValidGap, AllValid, ValidLevels, Delimited;
    var text := PrimitiveForm(js, pos);
    var e := pos + |text|;
    assert js[pos..e] == text;
    GapValid(js, pos, ls, ds, gap);
    if text != "" {
      OccursAt(js, pos, text, 0);
    }
    if AtDelimiter(js, e) {
      var d := Bare(gap, text);
      DocAdded(js, pos, ls, ds, gap, d);
      m := Moved(e, ls, ds + [d], [], None);
    } else {
      assert js[pos..] == js[pos..e] + ([js[e]] + js[e + 1..]);
      m := Moved(pos, ls, ds, gap, Some(BadCharacter(text, js[e], js[e + 1..])));
      FlawFound(js, pos, ls, ds, gap, m.flaw.value);
    }
  }

  lemma CommentForm(js: string, pos: nat) returns (body: Option<string>)
    requires pos < |js| && js[pos] == '/'
    ensures body.None? ==> NoEnd(js[pos + 1..])
    ensures body.Some? ==> ValidSpace(Comment(body.value)) && Occurs(js, pos, PrintSpace(Comment(body.value)))
  {
    hide NoEnd;
    CommentEndIsFirst(js, pos);
    var e := CommentEnd(js, pos);
    NoEndBefore(js, pos + 1, if e == |js| then |js| else e);
    if e == |js| {
      assert js[pos + 1..] == js[pos + 1..|js|];
      body := None;
    } else {
      body := Some(js[pos + 1..e]);
      assert js[e..e + 2] == "*/";
      assert js[pos..e + 2] == "/" + (js[pos + 1..e] + js[e..e + 2]);
    }
  }

  lemma NoEndBefore(js: string, p: nat, e: nat)
    requires p <= e <= |js| && forall i :: p <= i < e ==> !EndsComment(js, i)
    ensures NoEnd(js[p..e])
  {
    var text := js[p..e];
    forall i: nat | i < |text|
      ensures !Occurs(text, i, "*/")
    {
      if Occurs(text, i, "*/") {
        OccursAt(text, i, "*/", 0);
        OccursAt(text, i, "*/", 1);
        assert EndsComment(js, p + i);
      }
    }
  }

  lemma NextComment(js: string, pos: nat, ls: seq<Level>, ds: seq<Doc>, gap: Gap) returns (m: Moved)
    requires ReadSoFar(js, pos, ls, ds, gap) && !(EndsBare(ds) && gap == []) && pos < |js| && js[pos] == '/'
    ensures Moves(js, pos, m)
  {
    hide ReadSoFar, Explained, PrintSpace, ValidSpace, NoEnd, Occurs, EndsBare, KindsOf;
    var body := CommentForm(js, pos);
    if body.Some? {
      var sp := Comment(body.value);
      SpaceAdded(js, pos, ls, ds, gap, sp);
      SpaceLength(sp);
      m := Moved(pos + |PrintSpace(sp)|, ls, ds, gap + [sp], None);
    } else {
      assert js[pos..] == "/" + js[pos + 1..];
      m := Moved(pos, ls, ds, gap, Some(EndlessComment(js[pos + 1..])));
      FlawFound(js, pos, ls, ds, gap, m.flaw.value);
    }
  }

  lemma SpaceLength(sp: Space)
    ensures |PrintSpace(sp)| > 0
  {
  }

  lemma NextClosing(js: string, pos: nat, ls: seq<Level>, ds: seq<Doc>, gap: Gap) returns (m: Moved)
    requires ReadSoFar(js, pos, ls, ds, gap) && pos < |js| && js[pos] in "]}"
    ensures Moves(js, pos, m)
  {
    hide ReadSoFar, Explained, PrintAll, PrintLevels, PrintGap, ValidGap, AllValid, ValidLevels, Delimited;
    var kind := if js[pos] == '}' then Object else Array;
    assert js[pos..pos + 1] == [Closer(kind)];
    if ls != [] && ls[|ls| - 1].kind == kind {
      var l := ls[|ls| - 1];
      LevelClosed(js, pos, ls, ds, gap);
      m := Moved(pos + 1, ls[..|ls| - 1], l.items + [Bracket(l.gap, l.kind, ds, gap)], [], None);
    } else {
      assert js[pos..] == [Closer(kind)] + js[pos + 1..];
      m := Moved(pos, ls, ds, gap, Some(Unmatched(kind, js[pos + 1..])));
      FlawFound(js, pos, ls, ds, gap, m.flaw.value);
    }
  }

  lemma NextLexeme(js: string, pos: nat, ls: seq<Level>, ds: seq<Doc>, gap: Gap) returns (m: Moved)
    requires ReadSoFar(js, pos, ls, ds, gap) && pos < |js|
    ensures Moves(js, pos, m)
  {
    hide Explained, PrintAll, PrintLevels, PrintGap, ValidGap, AllValid, ValidLevels, Delimited;
    var c := js[pos];
    assert js[pos..pos + 1] == [c];
    if c in " \t\n\r:," {
      SpaceAdded(js, pos, ls, ds, gap, Blank(c));
      m := Moved(pos + 1, ls, ds, gap + [Blank(c)], None);
    } else if c in "]}" {
      m := NextClosing(js, pos, ls, ds, gap);
    } else if c in "\"'" {
      m := NextString(js, pos, ls, ds, gap);
    } else if c == '/' {
      m := NextComment(js, pos, ls, ds, gap);
    } else if c == '@' {
      DocAdded(js, pos, ls, ds, gap, AtSign(gap));
      m := Moved(pos + 1, ls, ds + [AtSign(gap)], [], None);
    } else if c in "{[" {
      var kind := if c == '{' then Object else Array;
      LevelAdded(js, pos, ls, ds, gap, kind);
      m := Moved(pos + 1, ls + [Level(ds, gap, kind)], [], [], None);
    } else {
      m := NextPrimitive(js, pos, ls, ds, gap);
    }
  }

  lemma {:induction false} ReadOn(js: string, pos: nat, ls: seq<Level>, ds: seq<Doc>, gap: Gap)
    returns (ls': seq<Level>, ds': seq<Doc>, gap': Gap, f: Option<Flaw>)
    requires ReadSoFar(js, pos, ls, ds, gap)
    ensures Explained(js, ls', ds', gap', f)
    decreases |js| - pos
  {
    hide PrintAll, PrintLevels, PrintGap, ValidGap, AllValid, ValidLevels, Delimited;
    if pos == |js| {
      ls', ds', gap' := ls, ds, gap;
      assert js[..pos] == js;
      if ls == [] {
        f := None;
        NoLevels();
      } else {
        f := Some(Unclosed);
        FlawFound(js, pos, ls, ds, gap, Unclosed);
      }
    } else {
      var m := NextLexeme(js, pos, ls, ds, gap);
      if m.flaw.None? {
        ls', ds', gap', f := ReadOn(js, m.pos, m.ls, m.ds, m.gap);
      } else {
        ls', ds', gap', f := m.ls, m.ds, m.gap, m.flaw;
      }
    }
  }

  lemma NoLevels()
    ensures PrintLevels([]) == "" && ValidLevels([])
  {
  }

  // ----- The outcome

  /** Every text is printed documents or has one of the flaws, and the outcome says which. */
  lemma OutcomeExplained(js: string) returns (ls: seq<Level>, ds: seq<Doc>, gap: Gap, f: Option<Flaw>)
    ensures Explained(js, ls, ds, gap, f)
    ensures Parse(js, |js|).outcome == if f.None? then Success else Verdict(f.value)
  {
    hide PrintAll, PrintLevels, PrintGap, ValidGap, AllValid, ValidLevels, Delimited, Parse, PreAll, TreesOf, IsFlaw;
    NoGapValid();
    NoLevels();
    ls, ds, gap, f := ReadOn(js, 0, [], [], []);
    if f.None? {
      AllTokensFit(ds, 0);
      PrintedRead(ds, gap, |js|);
    } else {
      FlawedRefused(ls, ds, gap, f.value, |js|);
    }
  }

  /** `js` is the documents `ds` and a gap behind them. */
  predicate IsText(js: string, ds: seq<Doc>, after: Gap) {
    AllValid(ds) && Delimited(ds, after, true) && ValidGap(after) && js == PrintAll(ds) + PrintGap(after)
  }

  /** Exactly the printed texts are accepted. */
  lemma AcceptedExactly(js: string)
    ensures Parse(js, |js|).outcome == Success <==> exists ds, after :: IsText(js, ds, after)
  {
    hide PrintAll, PrintGap, ValidGap, AllValid, Delimited, Parse, PreAll, TreesOf;
    var ls, ds, gap, f := OutcomeExplained(js);
    if f.None? {
      assert IsText(js, ds, gap);
    } else {
      forall es, after | IsText(js, es, after)
        ensures false
      {
        AllTokensFit(es, 0);
        PrintedRead(es, after, |js|);
      }
    }
  }

  /** jsmn_parse on a printed text: the token array lists the printed trees exactly when it is
      long enough for them. */
  method ParsePrintedText(js: string, tokens: array<Token>, ghost ds: seq<Doc>, ghost after: Gap)
    returns (r: Outcome, n: nat)
    requires IsText(js, ds, after)
    modifies tokens
    ensures n <= tokens.Length
    ensures var ts := TreesOf(ds, 0);
            && r == (if |PreAll(ts)| <= tokens.Length then Success else NoMem)
            && (r == Success ==> tokens[..n] == PreAll(ts) && AllShow(js, ts, ds))
  {
    hide Parse, PreAll, TreesOf, AllValid, Delimited, ValidGap, PrintAll, PrintGap, AllShow, Flat;
    if |PreAll(TreesOf(ds, 0))| <= tokens.Length {
      PrintedRead(ds, after, tokens.Length);
      PrintedShown(ds, after);
      TopFlat(TreesOf(ds, 0));
    } else {
      TooFewTokens(ds, after, tokens.Length);
    }
    var parser := new P.Parser();
    r := parser.Parse(js, tokens, tokens.Length);
    n := parser.toknext;
  }

  lemma TopFlat(ts: seq<Tree>)
    ensures Flat(Nest(ts, [])) == PreAll(ts)
  {
  }
}

/** Texts that the tokenizer refuses: brackets opened around printed documents, and then the
    flaw. */
module JsmnFlaws {
  import opened JsmnTree
  import opened Jsmn
  import opened JsmnPrint
  import opened Texts

  /** Documents, a gap and an opening bracket. */
  datatype Level = Level(items: seq<Doc>, gap: Gap, kind: Kind)

  predicate ValidLevel(l: Level) {
    AllValid(l.items) && Delimited(l.items, l.gap, false) && ValidGap(l.gap) && (l.kind == Object || l.kind == Array)
  }

  predicate ValidLevels(ls: seq<Level>) {
    ls == [] || (ValidLevel(ls[0]) && ValidLevels(ls[1..]))
  }

  function PrintLevel(l: Level): string {
    (PrintAll(l.items) + PrintGap(l.gap)) + [Opener(l.kind)]
  }

  function PrintLevels(ls: seq<Level>): string {
    if ls == [] then "" else PrintLevel(ls[0]) + PrintLevels(ls[1..])
  }

  /** The brackets and trees read when the levels from `pos` on are behind. */
  function OpenLevel(n: Nest, l: Level, pos: nat): Nest {
    Push(AttachAll(n, TreesOf(l.items, pos)), l.kind, pos + |PrintAll(l.items) + PrintGap(l.gap)|)
  }

  function OpenLevels(n: Nest, ls: seq<Level>, pos: nat): Nest
    decreases ls
  {
    if ls == [] then n else OpenLevels(OpenLevel(n, ls[0], pos), ls[1..], pos + |PrintLevel(ls[0])|)
  }

  /** What is wrong, and all that follows it. */
  datatype Flaw =
    | Unclosed
    | Unmatched(kind: Kind, rest: string)
    | OpenString(quote: char, text: string)
    | BadEscape(quote: char, text: string, rest: string)
    | BadCharacter(text: string, c: char, rest: string)
    | EndlessComment(rest: string)

  function PrintFlaw(f: Flaw): string {
    match f
    case Unclosed => ""
    case Unmatched(kind, rest) => [Closer(kind)] + rest
    case OpenString(quote, text) => [quote] + text
    case BadEscape(quote, text, rest) => [quote] + (text + ("\\" + rest))
    case BadCharacter(text, c, rest) => text + ([c] + rest)
    case EndlessComment(rest) => "/" + rest
  }

  /** The flaw is one when `kinds` are the brackets open, outermost first. */
  predicate IsFlaw(f: Flaw, kinds: seq<Kind>) {
    match f
    case Unclosed => kinds != []
    case Unmatched(kind, _) => (kind == Object || kind == Array) && (kinds == [] || kinds[|kinds| - 1] != kind)
    case OpenString(quote, text) => quote in "\"'" && Escaped(text, quote)
    case BadEscape(quote, text, rest) =>
      quote in "\"'" && Escaped(text, quote) && (rest == "" || rest[0] !in "\"'/\\bfrntu")
    case BadCharacter(text, c, _) =>
      Plain(text) && (text != "" ==> StartsPrimitive(text[0])) && (c > '~' || (c < ' ' && c !in "\t\n\r"))
    case EndlessComment(rest) => NoEnd(rest)
  }

  function Verdict(f: Flaw): Outcome {
    match f
    case Unclosed => Part
    case OpenString(_, _) => Part
    case EndlessComment(_) => RunsOff
    case _ => Inval
  }

  function KindsOf(ls: seq<Level>): (ks: seq<Kind>)
    ensures |ks| == |ls|
  {
    seq(|ls|, i requires 0 <= i < |ls| => ls[i].kind)
  }

  // ----- Where the lexer stops

  lemma {:induction false} StringUnended(js: string, k: nat, text: string, quote: char)
    requires Escaped(text, quote) && Occurs(js, k, text) && k + |text| == |js| && quote != '\\'
    ensures ScanString(js, k, quote).0 == Part
    decreases text
  {
    if text != "" {
      OccursAt(js, k, text, 0);
      if text[0] == '\\' {
        OccursAt(js, k, text, 1);
        assert text == text[..2] + text[2..];
        OccursSplit(js, k, text[..2], text[2..]);
        StringUnended(js, k + 2, text[2..], quote);
      } else {
        assert text == text[..1] + text[1..];
        OccursSplit(js, k, text[..1], text[1..]);
        StringUnended(js, k + 1, text[1..], quote);
      }
    }
  }

  lemma {:induction false} EscapeRefused(js: string, k: nat, text: string, quote: char)
    requires Escaped(text, quote) && Occurs(js, k, text + "\\") && quote != '\\'
    requires k + |text| + 1 == |js| || js[k + |text| + 1] !in "\"'/\\bfrntu"
    ensures ScanString(js, k, quote).0 == Inval
    decreases text
  {
    OccursAt(js, k, text + "\\", 0);
    if text != "" {
      if text[0] == '\\' {
        OccursAt(js, k, text + "\\", 1);
        assert text + "\\" == text[..2] + (text[2..] + "\\");
        OccursSplit(js, k, text[..2], text[2..] + "\\");
        EscapeRefused(js, k + 2, text[2..], quote);
      } else {
        assert text + "\\" == text[..1] + (text[1..] + "\\");
        OccursSplit(js, k, text[..1], text[1..] + "\\");
        EscapeRefused(js, k + 1, text[1..], quote);
      }
    }
  }

  lemma {:induction false} CharacterRefused(js: string, k: nat, text: string, c: char)
    requires Plain(text) && Occurs(js, k, text + [c]) && (c > '~' || (c < ' ' && c !in "\t\n\r"))
    ensures ScanPrimitive(js, k).0 == Inval
    decreases text
  {
    OccursAt(js, k, text + [c], 0);
    if text != "" {
      assert text + [c] == text[..1] + (text[1..] + [c]);
      OccursSplit(js, k, text[..1], text[1..] + [c]);
      CharacterRefused(js, k + 1, text[1..], c);
    }
  }

  // ----- Reading up to the flaw

  lemma {:induction false} AttachAllSize(n: Nest, ts: seq<Tree>)
    ensures |Flat(AttachAll(n, ts))| == |Flat(n)| + |PreAll(ts)|
    ensures StackKinds(AttachAll(n, ts)) == StackKinds(n)
    decreases ts
  {
    hide Flat, Pre;
    if ts != [] {
      AttachSize(n, ts[0]);
      AttachAllSize(Attach(n, ts[0]), ts[1..]);
      AttachKinds(n, ts[0]);
    }
  }

  /** The kinds of the brackets open, outermost first. */
  function StackKinds(n: Nest): (ks: seq<Kind>)
    ensures |ks| == |n.stack|
  {
    seq(|n.stack|, i requires 0 <= i < |n.stack| => n.stack[i].kind)
  }

  lemma AttachKinds(n: Nest, t: Tree)
    ensures StackKinds(Attach(n, t)) == StackKinds(n)
  {
  }

  lemma LevelRead(js: string, pos: nat, cap: nat, n: Nest, l: Level)
    requires ValidLevel(l) && Occurs(js, pos, PrintLevel(l)) && |Flat(n)| <= pos && |js| <= cap
    ensures var m := OpenLevel(n, l, pos); var next := pos + |PrintLevel(l)|;
            && next <= |js| && |Flat(m)| <= next && Run(js, pos, cap, n) == Run(js, next, cap, m)
            && StackKinds(m) == StackKinds(n) + [l.kind]
  {
    hide Lex, Run, Occurs, Flat, PreAll, PrintAll, PrintGap, AttachAll, TreesOf, Delimited, AllValid, ValidGap;
    OccursInside(js, pos, PrintLevel(l));
    var inner := PrintAll(l.items) + PrintGap(l.gap);
    var ts := TreesOf(l.items, pos);
    OccursSplit(js, pos, inner, [Opener(l.kind)]);
    AllTokensFit(l.items, pos);
    DocsRead(js, pos, cap, n, l.items, l.gap, false);
    var k := AttachAll(n, ts);
    AttachAllSize(n, ts);
    LexSign(js, pos + |inner|, Opener(l.kind));
    RunStep(js, pos + |inner|, cap, k);
    PushFlat(k, l.kind, pos + |inner|);
  }

  lemma {:induction false} LevelsRead(js: string, pos: nat, cap: nat, n: Nest, ls: seq<Level>)
    requires ValidLevels(ls) && Occurs(js, pos, PrintLevels(ls)) && |Flat(n)| <= pos && |js| <= cap
    ensures var m := OpenLevels(n, ls, pos); var next := pos + |PrintLevels(ls)|;
            && next <= |js| && |Flat(m)| <= next && Run(js, pos, cap, n) == Run(js, next, cap, m)
            && StackKinds(m) == StackKinds(n) + KindsOf(ls)
    decreases ls
  {
    hide Run, Occurs, Flat, PrintLevel, OpenLevel, ValidLevel, StackKinds;
    OccursInside(js, pos, PrintLevels(ls));
    if ls == [] {
      assert StackKinds(n) + KindsOf(ls) == StackKinds(n);
    } else {
      OccursSplit(js, pos, PrintLevel(ls[0]), PrintLevels(ls[1..]));
      LevelRead(js, pos, cap, n, ls[0]);
      LevelsRead(js, pos + |PrintLevel(ls[0])|, cap, OpenLevel(n, ls[0], pos), ls[1..]);
      assert KindsOf(ls) == [ls[0].kind] + KindsOf(ls[1..]);
      assert StackKinds(n) + KindsOf(ls) == (StackKinds(n) + [ls[0].kind]) + KindsOf(ls[1..]);
    }
  }

  lemma LexFlaw(js: string, pos: nat, f: Flaw, kinds: seq<Kind>)
    requires IsFlaw(f, kinds) && Occurs(js, pos, PrintFlaw(f)) && pos + |PrintFlaw(f)| == |js|
    ensures f.Unclosed? ==> Lex(js, pos) == Finished
    ensures f.Unmatched? ==> Lex(js, pos) == Closing(f.kind, pos + 1)
    ensures !f.Unclosed? && !f.Unmatched? ==> Lex(js, pos) == Bad(Verdict(f))
  {
    hide Lex, Escaped, Occurs, Plain;
    match f {
      case Unclosed => LexEnd(js);
      case Unmatched(kind, rest) =>
        OccursSplit(js, pos, [Closer(kind)], rest);
        LexSign(js, pos, Closer(kind));
      case OpenString(quote, text) => LexOpenString(js, pos, quote, text);
      case BadEscape(quote, text, rest) => LexBadEscape(js, pos, quote, text, rest);
      case BadCharacter(text, c, rest) => LexBadCharacter(js, pos, text, c, rest);
      case EndlessComment(rest) => CommentRunsOff(js, pos, rest);
    }
  }

  lemma LexEnd(js: string)
    ensures Lex(js, |js|) == Finished
  {
  }

  lemma LexOpenString(js: string, pos: nat, quote: char, text: string)
    requires quote in "\"'" && Escaped(text, quote) && Occurs(js, pos, [quote] + text) && pos + 1 + |text| == |js|
    ensures Lex(js, pos) == Bad(Part)
  {
    hide ScanString, ScanPrimitive, CommentEnd, Escaped, Occurs;
    OccursSplit(js, pos, [quote], text);
    OccursAt(js, pos, [quote], 0);
    StringUnended(js, pos + 1, text, quote);
  }

  lemma LexBadEscape(js: string, pos: nat, quote: char, text: string, rest: string)
    requires quote in "\"'" && Escaped(text, quote) && (rest == "" || rest[0] !in "\"'/\\bfrntu")
    requires Occurs(js, pos, [quote] + (text + ("\\" + rest))) && pos + |[quote] + (text + ("\\" + rest))| == |js|
    ensures Lex(js, pos) == Bad(Inval)
  {
    hide ScanString, ScanPrimitive, CommentEnd, Escaped, Occurs;
    OccursSplit(js, pos, [quote], text + ("\\" + rest));
    OccursAt(js, pos, [quote], 0);
    assert text + ("\\" + rest) == (text + "\\") + rest;
    OccursSplit(js, pos + 1, text + "\\", rest);
    if rest != "" {
      OccursAt(js, pos + 1 + |text + "\\"|, rest, 0);
    }
    EscapeRefused(js, pos + 1, text, quote);
  }

  lemma LexBadCharacter(js: string, pos: nat, text: string, c: char, rest: string)
    requires Plain(text) && (text != "" ==> StartsPrimitive(text[0])) && (c > '~' || (c < ' ' && c !in "\t\n\r"))
    requires Occurs(js, pos, text + ([c] + rest))
    ensures pos < |js| && Lex(js, pos) == Bad(Inval)
  {
    hide ScanString, ScanPrimitive, CommentEnd, Occurs;
    assert text + ([c] + rest) == (text + [c]) + rest;
    OccursSplit(js, pos, text + [c], rest);
    OccursAt(js, pos, text + [c], 0);
    CharacterRefused(js, pos, text, c);
  }

  lemma CommentRunsOff(js: string, pos: nat, rest: string)
    requires Occurs(js, pos, "/" + rest) && pos + 1 + |rest| == |js|
    requires NoEnd(rest)
    ensures Lex(js, pos) == Bad(RunsOff)
  {
    hide Lex;
    OccursAt(js, pos, "/" + rest, 0);
    forall i | pos <= i < |js|
      ensures !EndsComment(js, i)
    {
      if pos < i && i + 1 < |js| {
        OccursAt(js, pos, "/" + rest, i - pos);
        OccursAt(js, pos, "/" + rest, i + 1 - pos);
        assert !Occurs(rest, i - pos - 1, "*/");
        assert rest[i - pos - 1..i - pos + 1] == [rest[i - pos - 1], rest[i - pos]];
      }
    }
    LexRunsOff(js, pos);
  }

  lemma FlawMet(js: string, pos: nat, cap: nat, n: Nest, f: Flaw)
    requires IsFlaw(f, StackKinds(n)) && Occurs(js, pos, PrintFlaw(f)) && pos + |PrintFlaw(f)| == |js|
    ensures Run(js, pos, cap, n).outcome == Verdict(f)
  {
    hide Lex, Run, PrintFlaw, Flat, Pop;
    LexFlaw(js, pos, f, StackKinds(n));
    RunStep(js, pos, cap, n);
  }

  lemma FlawDelimits(js: string, pos: nat, f: Flaw)
    requires Occurs(js, pos, PrintFlaw(f)) && pos + |PrintFlaw(f)| == |js| && (f.Unclosed? || f.Unmatched?)
    ensures AtDelimiter(js, pos)
  {
    if f.Unmatched? {
      OccursAt(js, pos, PrintFlaw(f), 0);
    }
  }

  lemma NothingOpen()
    ensures Flat(Nest([], [])) == [] && StackKinds(Nest([], [])) == []
  {
  }

  /** Whatever was printed before it, a flaw is met and named: an end that comes too early, a
      bracket that closes nothing or the wrong one, a string without end, an escape or a
      character that is not allowed, a comment that leaves the text. */
  lemma FlawedRefused(ls: seq<Level>, ds: seq<Doc>, gap: Gap, f: Flaw, cap: nat)
    requires ValidLevels(ls) && AllValid(ds) && ValidGap(gap) && IsFlaw(f, KindsOf(ls))
    requires Delimited(ds, gap, f.Unclosed? || f.Unmatched?)
    requires cap >= |PrintLevels(ls) + ((PrintAll(ds) + PrintGap(gap)) + PrintFlaw(f))|
    ensures Parse(PrintLevels(ls) + ((PrintAll(ds) + PrintGap(gap)) + PrintFlaw(f)), cap).outcome == Verdict(f)
  {
    hide ValidLevels, AllValid, ValidGap, Delimited, PrintLevels, PrintAll, PrintGap, PrintFlaw, OpenLevels, Run,
         TreesOf, AttachAll, PreAll, IsFlaw;
    var inner := PrintAll(ds) + PrintGap(gap);
    var js := PrintLevels(ls) + (inner + PrintFlaw(f));
    var pos, n := |PrintLevels(ls)|, Nest([], []);
    NothingOpen();
    assert Occurs(js, 0, js);
    OccursSplit(js, 0, PrintLevels(ls), inner + PrintFlaw(f));
    LevelsRead(js, 0, cap, n, ls);
    OccursSplit(js, pos, inner, PrintFlaw(f));
    var m := OpenLevels(n, ls, 0);
    AllTokensFit(ds, pos);
    if f.Unclosed? || f.Unmatched? {
      FlawDelimits(js, pos + |inner|, f);
    }
    DocsRead(js, pos, cap, m, ds, gap, f.Unclosed? || f.Unmatched?);
    AttachAllSize(m, TreesOf(ds, pos));
    assert [] + KindsOf(ls) == KindsOf(ls);
    FlawMet(js, pos + |inner|, cap, AttachAll(m, TreesOf(ds, pos)), f);
  }
}

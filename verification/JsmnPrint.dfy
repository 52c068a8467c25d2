/** JSDT texts as they are written: what may stand between two lexemes, the lexemes, and the
    tokens a text must give. The characters are listed here once more, apart from the lexer's
    own tests. */
module JsmnPrint {
  import opened JsmnTree
  import opened Jsmn
  import opened Texts

  // ----- What a text is made of

  /** A separator: one character, or a comment without an end inside it. */
  datatype Space = Blank(c: char) | Comment(body: string)

  type Gap = seq<Space>

  predicate NoEnd(text: string) {
    forall i: nat :: i < |text| ==> !Occurs(text, i, "*/")
  }

  predicate ValidSpace(sp: Space) {
    match sp
    case Blank(c) => c in " \t\n\r:,"
    case Comment(body) => NoEnd(body)
  }

  predicate ValidGap(gap: Gap) {
    gap == [] || (ValidSpace(gap[0]) && ValidGap(gap[1..]))
  }

  function PrintSpace(sp: Space): string {
    match sp
    case Blank(c) => [c]
    case Comment(body) => "/" + (body + "*/")
  }

  function PrintGap(gap: Gap): string {
    if gap == [] then "" else PrintSpace(gap[0]) + PrintGap(gap[1..])
  }

  /** A lexeme, or a pair of brackets around others, behind a gap. */
  datatype Doc =
    | Quoted(before: Gap, quote: char, text: string)
    | Bare(before: Gap, text: string)
    | AtSign(before: Gap)
    | Bracket(before: Gap, kind: Kind, items: seq<Doc>, after: Gap)

  /** The contents of a string: no lone quote, and backslashes only before one of ten letters. */
  predicate Escaped(text: string, quote: char) {
    text == "" ||
    (if text[0] == '\\' then |text| > 1 && text[1] in "\"'/\\bfrntu" && Escaped(text[2..], quote)
     else text[0] != quote && Escaped(text[1..], quote))
  }

  /** Printable characters that end no primitive. */
  predicate Plain(text: string) {
    forall i :: 0 <= i < |text| ==> '!' <= text[i] <= '~' && text[i] !in ":,]}"
  }

  predicate StartsPrimitive(c: char) {
    c !in "/@{['\""
  }

  predicate Valid(d: Doc)
    decreases d, 1
  {
    && ValidGap(d.before)
    && match d
       case Quoted(_, quote, text) => quote in "\"'" && Escaped(text, quote)
       case Bare(_, text) => text != "" && Plain(text) && StartsPrimitive(text[0])
       case AtSign(_) => true
       case Bracket(_, kind, items, after) =>
         (kind == Object || kind == Array) && AllValid(items) && Delimited(items, after, true) && ValidGap(after)
  }

  predicate AllValid(ds: seq<Doc>)
    decreases ds, 0
  {
    ds == [] || (Valid(ds[0]) && AllValid(ds[1..]))
  }

  predicate StartsBlank(gap: Gap) {
    gap != [] && gap[0].Blank?
  }

  /** Behind every primitive comes a blank or, when `closed`, the end of the text or of a pair
      of brackets. */
  predicate Delimited(ds: seq<Doc>, after: Gap, closed: bool) {
    ds == [] ||
    (&& (ds[0].Bare? ==> if |ds| > 1 then StartsBlank(ds[1].before) else StartsBlank(after) || (after == [] && closed))
     && Delimited(ds[1..], after, closed))
  }

  function Opener(kind: Kind): char {
    if kind == Object then '{' else '['
  }

  function Closer(kind: Kind): char {
    if kind == Object then '}' else ']'
  }

  function Word(d: Doc): string
    decreases d, 0
  {
    match d
    case Quoted(_, quote, text) => [quote] + (text + [quote])
    case Bare(_, text) => text
    case AtSign(_) => "@"
    case Bracket(_, kind, items, after) => [Opener(kind)] + ((PrintAll(items) + PrintGap(after)) + [Closer(kind)])
  }

  function Print(d: Doc): string
    decreases d, 1
  {
    PrintGap(d.before) + Word(d)
  }

  function PrintAll(ds: seq<Doc>): string
    decreases ds, 2
  {
    if ds == [] then "" else Print(ds[0]) + PrintAll(ds[1..])
  }

  // ----- What a text gives

  /** The tree of a document printed at `p`. */
  function TreeOf(d: Doc, p: nat): Tree
    decreases d, 1
  {
    var q := p + |PrintGap(d.before)|;
    match d
    case Quoted(_, _, text) => Leaf(Str, q + 1, q + 1 + |text|)
    case Bare(_, text) => Leaf(Primitive, q, q + |text|)
    case AtSign(_) => Leaf(Children, q, q)
    case Bracket(_, kind, items, _) => Node(kind, q, q + |Word(d)|, TreesOf(items, q + 1))
  }

  function TreesOf(ds: seq<Doc>, p: nat): (ts: seq<Tree>)
    ensures |ts| == |ds|
    decreases ds, 0
  {
    if ds == [] then [] else [TreeOf(ds[0], p)] + TreesOf(ds[1..], p + |Print(ds[0])|)
  }

  function AttachAll(n: Nest, ts: seq<Tree>): Nest
    decreases ts
  {
    if ts == [] then n else AttachAll(Attach(n, ts[0]), ts[1..])
  }

  lemma {:induction false} AttachAllTop(top: seq<Tree>, ts: seq<Tree>)
    ensures AttachAll(Nest(top, []), ts) == Nest(top + ts, [])
    decreases ts
  {
    if ts == [] {
      assert top + ts == top;
    } else {
      AttachAllTop(top + [ts[0]], ts[1..]);
      assert (top + [ts[0]]) + ts[1..] == top + ts;
    }
  }

  lemma {:induction false} AttachAllInside(top: seq<Tree>, stack: seq<Frame>, f: Frame, ts: seq<Tree>)
    ensures AttachAll(Nest(top, stack + [f]), ts) == Nest(top, stack + [f.(kids := f.kids + ts)])
    decreases ts
  {
    if ts == [] {
      assert f.kids + ts == f.kids;
    } else {
      var n := Nest(top, stack + [f]);
      assert n.stack[..|n.stack| - 1] == stack;
      assert Attach(n, ts[0]) == Nest(top, stack + [f.(kids := f.kids + [ts[0]])]);
      AttachAllInside(top, stack, f.(kids := f.kids + [ts[0]]), ts[1..]);
      assert (f.kids + [ts[0]]) + ts[1..] == f.kids + ts;
    }
  }

  /** Opening a bracket, reading its items and closing it again attaches the whole. */
  lemma BracketAttached(n: Nest, kind: Kind, start: nat, end: nat, ts: seq<Tree>)
    ensures var m := AttachAll(Push(n, kind, start), ts);
            && m.stack != [] && m.stack[|m.stack| - 1].kind == kind
            && Pop(m, end) == Attach(n, Node(kind, start, end, ts))
  {
    hide Attach;
    AttachAllInside(n.top, n.stack, Frame(kind, start, []), ts);
    var m := AttachAll(Push(n, kind, start), ts);
    assert [] + ts == ts;
    assert m.stack[..|m.stack| - 1] == n.stack;
    assert Nest(n.top, n.stack) == n;
  }

  // ----- One lexeme

  /** The lexer meets the end of a primitive. */
  predicate AtDelimiter(js: string, q: nat) {
    q >= |js| || js[q] in " \t\n\r:,]}"
  }

  lemma LexBlank(js: string, p: nat, c: char)
    requires c in " \t\n\r:," && Occurs(js, p, [c])
    ensures Lex(js, p) == Skip(p + 1)
  {
    hide CommentEnd, ScanPrimitive, ScanString;
    OccursAt(js, p, [c], 0);
  }

  lemma InsideComment(js: string, p: nat, body: string, k: nat)
    requires Occurs(js, p, "/" + (body + "*/")) && k <= |body|
    requires NoEnd(body)
    ensures !EndsComment(js, p + k)
  {
    var w := "/" + (body + "*/");
    OccursAt(js, p, w, k);
    OccursAt(js, p, w, k + 1);
    if k > 0 {
      assert w[k] == (body + "*/")[k - 1] == body[k - 1];
      assert w[k + 1] == (body + "*/")[k];
      if k < |body| {
        assert !Occurs(body, k - 1, "*/");
        assert body[k - 1..k + 1] == [body[k - 1], body[k]];
      }
    }
  }

  lemma LexComment(js: string, p: nat, body: string)
    requires ValidSpace(Comment(body)) && Occurs(js, p, PrintSpace(Comment(body)))
    ensures Lex(js, p) == Skip(p + |PrintSpace(Comment(body))|)
  {
    hide ScanPrimitive, ScanString, CommentEnd, EndsComment, Occurs;
    var w := "/" + (body + "*/");
    OccursAt(js, p, w, 0);
    CommentEnds(js, p, body);
    forall i | p <= i < p + |body| + 1
      ensures !EndsComment(js, i)
    {
      InsideComment(js, p, body, i - p);
    }
    CommentEndIsFirst(js, p);
  }

  lemma CommentEnds(js: string, p: nat, body: string)
    requires Occurs(js, p, "/" + (body + "*/"))
    ensures EndsComment(js, p + |body| + 1) && p + |body| + 3 <= |js|
  {
    OccursAt(js, p, "/" + (body + "*/"), |body| + 1);
    OccursAt(js, p, "/" + (body + "*/"), |body| + 2);
  }

  lemma {:induction false} StringScanned(js: string, k: nat, text: string, quote: char)
    requires Escaped(text, quote) && Occurs(js, k, text + [quote]) && quote != '\\'
    ensures ScanString(js, k, quote) == (Success, k + |text|)
    decreases text
  {
    OccursAt(js, k, text + [quote], 0);
    if text != "" {
      if text[0] == '\\' {
        OccursAt(js, k, text + [quote], 1);
        assert text + [quote] == text[..2] + (text[2..] + [quote]);
        OccursSplit(js, k, text[..2], text[2..] + [quote]);
        StringScanned(js, k + 2, text[2..], quote);
      } else {
        assert text + [quote] == text[..1] + (text[1..] + [quote]);
        OccursSplit(js, k, text[..1], text[1..] + [quote]);
        StringScanned(js, k + 1, text[1..], quote);
      }
    }
  }

  lemma LexQuoted(js: string, p: nat, text: string, quote: char)
    requires quote in "\"'" && Escaped(text, quote) && Occurs(js, p, [quote] + (text + [quote]))
    ensures Lex(js, p) == Atom(Str, p + 1, p + 1 + |text|, p + |text| + 2)
  {
    hide CommentEnd, ScanPrimitive, ScanString, Escaped;
    OccursSplit(js, p, [quote], text + [quote]);
    OccursAt(js, p, [quote], 0);
    StringScanned(js, p + 1, text, quote);
  }

  lemma {:induction false} PrimitiveScanned(js: string, k: nat, text: string)
    requires Plain(text) && Occurs(js, k, text) && AtDelimiter(js, k + |text|)
    ensures ScanPrimitive(js, k) == (Success, k + |text|)
    decreases text
  {
    if text != "" {
      OccursAt(js, k, text, 0);
      assert text == text[..1] + text[1..];
      OccursSplit(js, k, text[..1], text[1..]);
      PrimitiveScanned(js, k + 1, text[1..]);
    }
  }

  lemma LexBare(js: string, p: nat, text: string)
    requires text != "" && Plain(text) && StartsPrimitive(text[0])
    requires Occurs(js, p, text) && AtDelimiter(js, p + |text|)
    ensures Lex(js, p) == Atom(Primitive, p, p + |text|, p + |text|)
  {
    hide CommentEnd, ScanPrimitive, ScanString, AtDelimiter;
    OccursAt(js, p, text, 0);
    PrimitiveScanned(js, p, text);
  }

  lemma LexSign(js: string, p: nat, c: char)
    requires Occurs(js, p, [c])
    ensures c == '@' ==> Lex(js, p) == Atom(Children, p, p, p + 1)
    ensures c == '{' ==> Lex(js, p) == Opening(Object, p + 1)
    ensures c == '[' ==> Lex(js, p) == Opening(Array, p + 1)
    ensures c == '}' ==> Lex(js, p) == Closing(Object, p + 1)
    ensures c == ']' ==> Lex(js, p) == Closing(Array, p + 1)
  {
    hide CommentEnd, ScanPrimitive, ScanString;
    OccursAt(js, p, [c], 0);
  }

  // ----- The run over a printed text

  lemma RunStep(js: string, pos: nat, cap: nat, n: Nest)
    requires pos <= |js|
    ensures var l := Lex(js, pos); var next := Step(l, pos, cap, n);
            && (next.Go? ==> pos < l.next <= |js| && Run(js, pos, cap, n) == Run(js, l.next, cap, next.nest))
            && (next.Stop? ==> Run(js, pos, cap, n) == Result(next.outcome, pos, n))
  {
  }

  lemma {:induction false} GapRead(js: string, pos: nat, cap: nat, n: Nest, gap: Gap)
    requires ValidGap(gap) && Occurs(js, pos, PrintGap(gap))
    ensures pos + |PrintGap(gap)| <= |js|
    ensures Run(js, pos, cap, n) == Run(js, pos + |PrintGap(gap)|, cap, n)
    decreases gap
  {
    hide Lex, Run, Occurs, PrintSpace, ValidSpace;
    OccursInside(js, pos, PrintGap(gap));
    if gap != [] {
      OccursSplit(js, pos, PrintSpace(gap[0]), PrintGap(gap[1..]));
      SpaceRead(js, pos, gap[0]);
      RunStep(js, pos, cap, n);
      GapRead(js, pos + |PrintSpace(gap[0])|, cap, n, gap[1..]);
    }
  }

  lemma OccursInside(js: string, p: nat, w: string)
    requires Occurs(js, p, w)
    ensures p + |w| <= |js|
  {
  }

  lemma SpaceRead(js: string, pos: nat, sp: Space)
    requires ValidSpace(sp) && Occurs(js, pos, PrintSpace(sp))
    ensures pos <= |js| && Lex(js, pos) == Skip(pos + |PrintSpace(sp)|)
  {
    hide Lex;
    match sp {
      case Blank(c) => LexBlank(js, pos, c);
      case Comment(body) => LexComment(js, pos, body);
    }
  }

  /** A document is read as its tree, wherever it stands. */
  lemma {:induction false} DocRead(js: string, pos: nat, cap: nat, n: Nest, d: Doc)
    requires Valid(d) && Occurs(js, pos, Print(d)) && (d.Bare? ==> AtDelimiter(js, pos + |Print(d)|))
    requires |Flat(n)| + |Pre(TreeOf(d, pos))| <= cap
    ensures pos + |Print(d)| <= |js|
    ensures Run(js, pos, cap, n) == Run(js, pos + |Print(d)|, cap, Attach(n, TreeOf(d, pos)))
    decreases d, 1
  {
    hide Lex, Run, Occurs, ValidGap, PrintGap, Escaped, Plain, AtDelimiter, Attach, Flat;
    OccursInside(js, pos, Print(d));
    OccursSplit(js, pos, PrintGap(d.before), Word(d));
    GapRead(js, pos, cap, n, d.before);
    var q := pos + |PrintGap(d.before)|;
    RunStep(js, q, cap, n);
    match d {
      case Quoted(_, quote, text) => LexQuoted(js, q, text, quote);
      case Bare(_, text) => LexBare(js, q, text);
      case AtSign(_) => LexSign(js, q, '@');
      case Bracket(_, _, _, _) => BracketRead(js, q, cap, n, d);
    }
  }

  lemma {:induction false} BracketRead(js: string, q: nat, cap: nat, n: Nest, d: Doc)
    requires Valid(d) && d.Bracket? && Occurs(js, q, Word(d))
    requires |Flat(n)| + 1 + |PreAll(TreesOf(d.items, q + 1))| <= cap
    ensures q + |Word(d)| <= |js|
    ensures Run(js, q, cap, n) ==
            Run(js, q + |Word(d)|, cap, Attach(n, Node(d.kind, q, q + |Word(d)|, TreesOf(d.items, q + 1))))
    decreases d, 0
  {
    hide Lex, Run, Occurs, ValidGap, PrintGap, AttachAll, Attach, Push, Pop, Flat, PrintAll, TreesOf;
    var inner := PrintAll(d.items) + PrintGap(d.after);
    OccursInside(js, q, Word(d));
    OccursSplit(js, q, [Opener(d.kind)], inner + [Closer(d.kind)]);
    OccursSplit(js, q + 1, inner, [Closer(d.kind)]);
    LexSign(js, q, Opener(d.kind));
    RunStep(js, q, cap, n);
    PushFlat(n, d.kind, q);
    var m := Push(n, d.kind, q);
    CloserDelimits(js, q + 1 + |inner|, d.kind);
    DocsRead(js, q + 1, cap, m, d.items, d.after, true);
    var ts := TreesOf(d.items, q + 1);
    LexSign(js, q + 1 + |inner|, Closer(d.kind));
    RunStep(js, q + 1 + |inner|, cap, AttachAll(m, ts));
    BracketAttached(n, d.kind, q, q + |Word(d)|, ts);
  }

  lemma CloserDelimits(js: string, q: nat, kind: Kind)
    requires Occurs(js, q, [Closer(kind)])
    ensures AtDelimiter(js, q)
  {
    OccursAt(js, q, [Closer(kind)], 0);
  }

  /** What comes after the first of several documents. */
  lemma NextDelimits(js: string, q: nat, ds: seq<Doc>, after: Gap, closed: bool)
    requires ds != [] && AllValid(ds) && Delimited(ds, after, closed) && ValidGap(after) && ds[0].Bare?
    requires Occurs(js, q, PrintAll(ds[1..]) + PrintGap(after))
    requires closed ==> AtDelimiter(js, q + |PrintAll(ds[1..]) + PrintGap(after)|)
    ensures AtDelimiter(js, q)
  {
    hide PrintAll, PrintGap, Occurs, AtDelimiter, Valid, ValidGap;
    if |ds| > 1 {
      assert ds[1..][0] == ds[1];
      FirstDelimits(js, q, ds[1..], PrintGap(after));
    } else {
      NoDocs();
      assert ds[1..] == [] && "" + PrintGap(after) == PrintGap(after);
      if after == [] {
        NoGap();
      } else {
        BlankDelimits(js, q, after);
      }
    }
  }

  lemma FirstDelimits(js: string, q: nat, ds: seq<Doc>, rest: string)
    requires ds != [] && AllValid(ds) && StartsBlank(ds[0].before) && Occurs(js, q, PrintAll(ds) + rest)
    ensures AtDelimiter(js, q)
  {
    hide PrintAll, Print, PrintGap, Occurs, AtDelimiter, Valid, ValidGap, StartsBlank;
    FirstGap(ds);
    var gap := PrintGap(ds[0].before);
    assert PrintAll(ds) + rest == gap + (PrintAll(ds)[|gap|..] + rest);
    OccursSplit(js, q, gap, PrintAll(ds)[|gap|..] + rest);
    BlankDelimits(js, q, ds[0].before);
  }

  lemma NoGap()
    ensures PrintGap([]) == ""
  {
  }

  lemma NoDocs()
    ensures PrintAll([]) == ""
  {
  }

  lemma FirstGap(ds: seq<Doc>)
    requires ds != [] && AllValid(ds)
    ensures PrintGap(ds[0].before) <= PrintAll(ds) && ValidGap(ds[0].before)
  {
  }

  lemma BlankDelimits(js: string, q: nat, gap: Gap)
    requires ValidGap(gap) && StartsBlank(gap) && Occurs(js, q, PrintGap(gap))
    ensures AtDelimiter(js, q)
  {
    OccursAt(js, q, PrintGap(gap), 0);
  }

  lemma {:induction false} DocsRead(js: string, pos: nat, cap: nat, n: Nest, ds: seq<Doc>, after: Gap, closed: bool)
    requires AllValid(ds) && Delimited(ds, after, closed) && ValidGap(after)
    requires Occurs(js, pos, PrintAll(ds) + PrintGap(after))
    requires closed ==> AtDelimiter(js, pos + |PrintAll(ds) + PrintGap(after)|)
    requires |Flat(n)| + |PreAll(TreesOf(ds, pos))| <= cap
    ensures pos + |PrintAll(ds) + PrintGap(after)| <= |js|
    ensures Run(js, pos, cap, n) ==
            Run(js, pos + |PrintAll(ds) + PrintGap(after)|, cap, AttachAll(n, TreesOf(ds, pos)))
    decreases ds, 0
  {
    hide Lex, Run, Occurs, PrintGap, AtDelimiter, Attach, AttachAll, Flat, Print, PrintAll, Pre, PreAll, Valid,
         TreeOf, TreesOf;
    if ds == [] {
      NoDocs();
      NoTrees(n, pos);
      assert "" + PrintGap(after) == PrintGap(after);
      GapRead(js, pos, cap, n, after);
    } else {
      var first, rest := Print(ds[0]), PrintAll(ds[1..]) + PrintGap(after);
      TreesFirst(n, ds, pos);
      assert PrintAll(ds) + PrintGap(after) == first + rest;
      OccursSplit(js, pos, first, rest);
      if ds[0].Bare? {
        NextDelimits(js, pos + |first|, ds, after, closed);
      }
      var t := TreeOf(ds[0], pos);
      AttachSize(n, t);
      DocRead(js, pos, cap, n, ds[0]);
      DocsRead(js, pos + |first|, cap, Attach(n, t), ds[1..], after, closed);
    }
  }

  lemma NoTrees(n: Nest, pos: nat)
    ensures AttachAll(n, TreesOf([], pos)) == n && |PreAll(TreesOf([], pos))| == 0
  {
  }

  lemma TreesFirst(n: Nest, ds: seq<Doc>, pos: nat)
    requires ds != []
    ensures var ts := TreesOf(ds, pos); var t, us := TreeOf(ds[0], pos), TreesOf(ds[1..], pos + |Print(ds[0])|);
            && AttachAll(n, ts) == AttachAll(Attach(n, t), us)
            && |PreAll(ts)| == |Pre(t)| + |PreAll(us)|
    ensures PrintAll(ds) == Print(ds[0]) + PrintAll(ds[1..])
  {
    hide Attach;
    var t, us := TreeOf(ds[0], pos), TreesOf(ds[1..], pos + |Print(ds[0])|);
    assert TreesOf(ds, pos)[0] == t && TreesOf(ds, pos)[1..] == us;
  }

  /** A printed text is accepted with as many tokens as it has lexemes and brackets, and gives
      just the trees that were printed. */
  lemma PrintedRead(ds: seq<Doc>, after: Gap, cap: nat)
    requires AllValid(ds) && Delimited(ds, after, true) && ValidGap(after)
    requires cap >= |PreAll(TreesOf(ds, 0))|
    ensures var js := PrintAll(ds) + PrintGap(after);
            Parse(js, cap) == Result(Success, |js|, Nest(TreesOf(ds, 0), []))
  {
    hide AllValid, ValidGap, Delimited, PrintAll, PrintGap, TreesOf, Lex;
    var js := PrintAll(ds) + PrintGap(after);
    assert Flat(Nest([], [])) == [];
    assert Occurs(js, 0, js);
    DocsRead(js, 0, cap, Nest([], []), ds, after, true);
    AttachAllTop([], TreesOf(ds, 0));
    assert [] + TreesOf(ds, 0) == TreesOf(ds, 0);
    RunEnd(js, cap, Nest(TreesOf(ds, 0), []));
  }

  /** With fewer tokens it runs out of them. */
  lemma TooFewTokens(ds: seq<Doc>, after: Gap, cap: nat)
    requires AllValid(ds) && Delimited(ds, after, true) && ValidGap(after)
    requires cap < |PreAll(TreesOf(ds, 0))|
    ensures Parse(PrintAll(ds) + PrintGap(after), cap).outcome == NoMem
  {
    hide AllValid, ValidGap, Delimited, PrintAll, PrintGap, TreesOf, Lex, PreAll, Run;
    var js, n := PrintAll(ds) + PrintGap(after), Nest([], []);
    var need := |PreAll(TreesOf(ds, 0))|;
    PrintedRead(ds, after, need);
    NothingFlat();
    RunWithin(js, 0, cap, n);
    if Parse(js, cap).outcome != NoMem {
      CapacityIndependent(js, 0, cap, need, n);
    }
  }

  lemma NothingFlat()
    ensures Flat(Nest([], [])) == []
  {
  }

  lemma RunEnd(js: string, cap: nat, n: Nest)
    ensures Run(js, |js|, cap, n) == Result(if n.stack == [] then Success else Part, |js|, n)
  {
  }

  /** No more tokens than characters. */
  lemma {:induction false} TokensFit(d: Doc, p: nat)
    requires Valid(d)
    ensures |Pre(TreeOf(d, p))| <= |Print(d)|
    decreases d, 1
  {
    if d.Bracket? {
      AllTokensFit(d.items, p + |PrintGap(d.before)| + 1);
    }
  }

  lemma {:induction false} AllTokensFit(ds: seq<Doc>, p: nat)
    requires AllValid(ds)
    ensures |PreAll(TreesOf(ds, p))| <= |PrintAll(ds)|
    decreases ds, 0
  {
    hide Valid, Print, Pre, TreeOf;
    if ds != [] {
      TokensFit(ds[0], p);
      AllTokensFit(ds[1..], p + |Print(ds[0])|);
      TreesFirst(Nest([], []), ds, p);
    }
  }

  // ----- The tokens cut out what was printed

  function KindOf(d: Doc): Kind {
    match d
    case Quoted(_, _, _) => Str
    case Bare(_, _) => Primitive
    case AtSign(_) => Children
    case Bracket(_, kind, _, _) => kind
  }

  /** The characters between a token's start and its end. */
  function Inside(d: Doc): string {
    match d
    case Quoted(_, _, text) => text
    case Bare(_, text) => text
    case AtSign(_) => ""
    case Bracket(_, _, _, _) => Word(d)
  }

  /** The tree stands for the document: same kind, the characters of the lexeme, and trees for
      everything inside. A primitive is followed by a delimiter. */
  predicate Shows(js: string, t: Tree, d: Doc)
    decreases d, 1
  {
    && t.kind == KindOf(d) && Occurs(js, t.start, Inside(d)) && t.end == t.start + |Inside(d)|
    && (d.Bare? ==> AtDelimiter(js, t.end))
    && if d.Bracket? then t.Node? && AllShow(js, t.kids, d.items) else t.Leaf?
  }

  predicate AllShow(js: string, ts: seq<Tree>, ds: seq<Doc>)
    decreases ds, 0
  {
    && |ts| == |ds|
    && (ds == [] || (Shows(js, ts[0], ds[0]) && AllShow(js, ts[1..], ds[1..])))
  }

  lemma {:induction false} TreeShows(js: string, p: nat, d: Doc)
    requires Valid(d) && Occurs(js, p, Print(d)) && (d.Bare? ==> AtDelimiter(js, p + |Print(d)|))
    ensures Shows(js, TreeOf(d, p), d)
    decreases d, 1
  {
    hide Occurs, ValidGap, PrintGap, Escaped, Plain, AtDelimiter, PrintAll, TreesOf, AllShow;
    OccursSplit(js, p, PrintGap(d.before), Word(d));
    var q := p + |PrintGap(d.before)|;
    match d {
      case Quoted(_, quote, text) =>
        OccursSplit(js, q, [quote], text + [quote]);
        OccursSplit(js, q + 1, text, [quote]);
      case Bare(_, text) =>
      case AtSign(_) =>
        assert "@" == "" + "@";
        OccursSplit(js, q, "", "@");
      case Bracket(_, _, _, _) =>
        BracketShows(js, q, d);
    }
  }

  lemma {:induction false} BracketShows(js: string, q: nat, d: Doc)
    requires Valid(d) && d.Bracket? && Occurs(js, q, Word(d))
    ensures AllShow(js, TreesOf(d.items, q + 1), d.items)
    decreases d, 0
  {
    hide Occurs, PrintGap, AtDelimiter, PrintAll, TreesOf, AllShow;
    var inner := PrintAll(d.items) + PrintGap(d.after);
    OccursSplit(js, q, [Opener(d.kind)], inner + [Closer(d.kind)]);
    OccursSplit(js, q + 1, inner, [Closer(d.kind)]);
    CloserDelimits(js, q + 1 + |inner|, d.kind);
    TreesShow(js, q + 1, d.items, d.after, true);
  }

  lemma {:induction false} TreesShow(js: string, p: nat, ds: seq<Doc>, after: Gap, closed: bool)
    requires AllValid(ds) && Delimited(ds, after, closed) && ValidGap(after)
    requires Occurs(js, p, PrintAll(ds) + PrintGap(after))
    requires closed ==> AtDelimiter(js, p + |PrintAll(ds) + PrintGap(after)|)
    ensures AllShow(js, TreesOf(ds, p), ds)
    decreases ds, 0
  {
    hide Occurs, PrintGap, AtDelimiter, Print, Valid, Shows;
    if ds != [] {
      var first, rest := Print(ds[0]), PrintAll(ds[1..]) + PrintGap(after);
      assert PrintAll(ds) + PrintGap(after) == first + rest;
      OccursSplit(js, p, first, rest);
      if ds[0].Bare? {
        NextDelimits(js, p + |first|, ds, after, closed);
      }
      TreeShows(js, p, ds[0]);
      TreesShow(js, p + |first|, ds[1..], after, closed);
      assert TreesOf(ds, p)[1..] == TreesOf(ds[1..], p + |first|);
    }
  }

  /** Of a printed text the parser makes trees that stand for the documents printed. */
  lemma PrintedShown(ds: seq<Doc>, after: Gap)
    requires AllValid(ds) && Delimited(ds, after, true) && ValidGap(after)
    ensures var js := PrintAll(ds) + PrintGap(after); AllShow(js, TreesOf(ds, 0), ds)
  {
    hide AllValid, ValidGap, Delimited, PrintAll, PrintGap, TreesOf, AllShow;
    var js := PrintAll(ds) + PrintGap(after);
    assert Occurs(js, 0, js);
    TreesShow(js, 0, ds, after, true);
  }
}

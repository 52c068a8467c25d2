/** Device trees written as JSDT texts, in any of the forms that the parser reads, and the
    trees they must give. */
module JsdtPrint {
  import opened Bytes
  import opened JsmnTree
  import opened JsmnPrint
  import opened JsDeviceTree
  import opened JsWalker
  import opened Texts
  import opened Wrappers
  import F = FlatTree
  import B = DeviceTreeBuilder
  import W = FlatWriter
  import J = Jsmn
  import Jsdt
  import Strtoul

  // ----- Device trees as texts, with every gap and quote

  /** A string, or a number with or without a sign, in any base. */
  datatype Datum =
    | Chars(before: Gap, quote: char, text: string)
    | Number(before: Gap, sign: string, n: nat, numeral: Strtoul.Numeral)

  datatype Value = One(datum: Datum) | Many(before: Gap, data: seq<Datum>, after: Gap)

  /** A name and its value, or the sign for children and an array of them. */
  datatype Entry =
    | Named(before: Gap, quote: char, name: string, value: Value)
    | Subnodes(before: Gap, open: Gap, nodes: seq<NodeText>, close: Gap)

  datatype NodeText = NodeText(before: Gap, entries: seq<Entry>, after: Gap)

  function DatumDoc(d: Datum): Doc
    requires DatumFormed(d)
  {
    match d
    case Chars(before, quote, text) => Quoted(before, quote, text)
    case Number(before, sign, n, numeral) => Bare(before, sign + Strtoul.Printed(n, numeral))
  }

  predicate DatumFormed(d: Datum) {
    d.Number? ==> d.sign in {"", "+", "-"} && d.numeral.Valid()
  }

  predicate DataFormed(ds: seq<Datum>) {
    ds == [] || (DatumFormed(ds[0]) && DataFormed(ds[1..]))
  }

  function DataDocs(ds: seq<Datum>): (r: seq<Doc>)
    requires DataFormed(ds)
    ensures |r| == |ds|
  {
    if ds == [] then [] else [DatumDoc(ds[0])] + DataDocs(ds[1..])
  }

  predicate ValueFormed(v: Value) {
    match v
    case One(d) => DatumFormed(d)
    case Many(_, ds, _) => DataFormed(ds)
  }

  function ValueDoc(v: Value): Doc
    requires ValueFormed(v)
  {
    match v
    case One(d) => DatumDoc(d)
    case Many(before, ds, after) => Bracket(before, Array, DataDocs(ds), after)
  }

  predicate EntryFormed(e: Entry)
    decreases e, 0
  {
    match e
    case Named(_, _, _, v) => ValueFormed(v)
    case Subnodes(_, _, ns, _) => NodesFormed(ns)
  }

  predicate EntriesFormed(es: seq<Entry>)
    decreases es, 1
  {
    es == [] || (EntryFormed(es[0]) && EntriesFormed(es[1..]))
  }

  predicate NodesFormed(ns: seq<NodeText>)
    decreases ns, 1
  {
    ns == [] || (EntriesFormed(ns[0].entries) && NodesFormed(ns[1..]))
  }

  function EntryDocs(e: Entry): (r: seq<Doc>)
    requires EntryFormed(e)
    ensures |r| == 2
    decreases e, 0
  {
    match e
    case Named(before, quote, name, v) => [Quoted(before, quote, name), ValueDoc(v)]
    case Subnodes(before, open, ns, close) => [AtSign(before), Bracket(open, Array, NodeDocs(ns), close)]
  }

  function EntriesDocs(es: seq<Entry>): (r: seq<Doc>)
    requires EntriesFormed(es)
    ensures |r| == 2 * |es|
    decreases es, 1
  {
    if es == [] then [] else EntryDocs(es[0]) + EntriesDocs(es[1..])
  }

  function NodeDoc(n: NodeText): Doc
    requires EntriesFormed(n.entries)
    decreases n, 0
  {
    Bracket(n.before, Object, EntriesDocs(n.entries), n.after)
  }

  function NodeDocs(ns: seq<NodeText>): (r: seq<Doc>)
    requires NodesFormed(ns)
    ensures |r| == |ns|
    decreases ns, 1
  {
    if ns == [] then [] else [NodeDoc(ns[0])] + NodeDocs(ns[1..])
  }

  // ----- The trees they mean

  function Characters(text: string): (s: seq<byte>)
    ensures |s| == |text|
  {
    seq(|text|, i requires 0 <= i < |text| => text[i] as int % 0x100)
  }

  /** The 32-bit value of a number: the largest when it does not fit, and negated modulo 2^32
      under a minus sign. */
  function NumberValue(sign: string, n: nat): uint32 {
    if n > 0xffff_ffff then 0xffff_ffff
    else if sign == "-" then (0x1_0000_0000 - n) % 0x1_0000_0000
    else n
  }

  /** The characters and a zero, or the four bytes of the number, lowest first. */
  function DatumBytes(d: Datum): seq<byte> {
    match d
    case Chars(_, _, text) => Characters(text) + [0]
    case Number(_, sign, n, _) =>
      var v := NumberValue(sign, n);
      [v % 0x100, v / 0x100 % 0x100, v / 0x1_0000 % 0x100, v / 0x100_0000 % 0x100]
  }

  function DataBytes(ds: seq<Datum>): seq<byte> {
    if ds == [] then [] else DatumBytes(ds[0]) + DataBytes(ds[1..])
  }

  function ValueBytes(v: Value): seq<byte> {
    match v
    case One(d) => DatumBytes(d)
    case Many(_, ds, _) => DataBytes(ds)
  }

  /** The named entries, in order. */
  function PropertiesOf(es: seq<Entry>): seq<F.Property> {
    if es == [] then []
    else (if es[0].Named? then [F.Property(Characters(es[0].name), ValueBytes(es[0].value))] else [])
         + PropertiesOf(es[1..])
  }

  function TreeMeant(n: NodeText): F.Tree
    decreases n, 0
  {
    F.Tree(PropertiesOf(n.entries), ChildrenOf(n.entries))
  }

  /** All nodes below the children signs, the last one first. */
  function ChildrenOf(es: seq<Entry>): seq<F.Tree>
    decreases es, 1
  {
    if es == [] then [] else ChildrenOf(es[1..]) + if es[0].Subnodes? then TreesMeant(es[0].nodes) else []
  }

  function TreesMeant(ns: seq<NodeText>): seq<F.Tree>
    decreases ns, 1
  {
    if ns == [] then [] else TreesMeant(ns[1..]) + [TreeMeant(ns[0])]
  }

  /** All child nodes in the order of the text. */
  function NodesOf(es: seq<Entry>): seq<NodeText> {
    if es == [] then [] else (if es[0].Subnodes? then es[0].nodes else []) + NodesOf(es[1..])
  }

  lemma {:induction false} TreesMeantConcat(a: seq<NodeText>, b: seq<NodeText>)
    ensures TreesMeant(a + b) == TreesMeant(b) + TreesMeant(a)
  {
    if a == [] {
      assert a + b == b;
    } else {
      assert (a + b)[1..] == a[1..] + b;
      TreesMeantConcat(a[1..], b);
    }
  }

  lemma {:induction false} TreesMeantAt(ns: seq<NodeText>, k: nat)
    requires k < |ns|
    ensures |TreesMeant(ns)| == |ns| && TreesMeant(ns)[|ns| - 1 - k] == TreeMeant(ns[k])
  {
    if |ns| > 1 {
      TreesMeantAt(ns[1..], if k > 0 then k - 1 else 0);
    }
  }

  /** The children of a node are the nodes of its text in reverse order. */
  lemma {:induction false} ChildrenReversed(es: seq<Entry>)
    ensures ChildrenOf(es) == TreesMeant(NodesOf(es))
  {
    if es != [] {
      ChildrenReversed(es[1..]);
      TreesMeantConcat(if es[0].Subnodes? then es[0].nodes else [], NodesOf(es[1..]));
    }
  }

  // ----- One datum

  lemma CharsMean(js: string, a: nat, e: nat, text: string)
    requires Occurs(js, a, text) && e == a + |text|
    ensures Text(js, a, e) == Characters(text)
  {
    forall k | 0 <= k < |text|
      ensures Text(js, a, e)[k] == Characters(text)[k]
    {
      OccursAt(js, a, text, k);
    }
  }

  lemma DelimiterEnds(js: string, q: nat)
    requires AtDelimiter(js, q)
    ensures Strtoul.EndsAt(js, q)
  {
  }

  lemma LeBytes(v: uint32)
    ensures Le(v, 4) == [v % 0x100, v / 0x100 % 0x100, v / 0x1_0000 % 0x100, v / 0x100_0000 % 0x100]
  {
    hide Le;
    LeDigits(v, 4);
  }

  lemma PlainConcat(a: string, b: string)
    requires Plain(a) && Plain(b)
    ensures Plain(a + b)
  {
  }

  lemma PrefixPlain(f: Strtoul.Numeral)
    requires f.Valid()
    ensures Plain(Strtoul.Prefix(f)) && (Strtoul.Prefix(f) != "" ==> Strtoul.Prefix(f)[0] == '0')
  {
  }

  /** A printed number holds only characters that may stand in a primitive. */
  lemma NumberPlain(d: Datum)
    requires d.Number? && DatumFormed(d)
    ensures var text := DatumDoc(d).text; text != "" && Plain(text) && StartsPrimitive(text[0])
  {
    hide Plain, Strtoul.Prefix, Strtoul.Numerals;
    var prefix, digits := Strtoul.Prefix(d.numeral), Strtoul.Numerals(d.n, d.numeral);
    PrefixPlain(d.numeral);
    Strtoul.NumeralsLetters(d.n, d.numeral);
    assert Plain(d.sign) && Plain(digits) by {
      SignPlain(d.sign);
      LettersPlain(digits);
    }
    PlainConcat(prefix, digits);
    PlainConcat(d.sign, prefix + digits);
  }

  lemma SignPlain(sign: string)
    requires sign in {"", "+", "-"}
    ensures Plain(sign)
  {
  }

  lemma LettersPlain(text: string)
    requires forall k :: 0 <= k < |text| ==> '0' <= text[k] <= '9' || 'A' <= text[k] <= 'F' || 'a' <= text[k] <= 'f'
    ensures Plain(text)
  {
  }

  lemma DatumMeans(js: string, t: Tree, d: Datum)
    requires DatumFormed(d) && Shows(js, t, DatumDoc(d))
    ensures t.Leaf? && InText(js, t) && IsElement(t) && ElementData(js, t) == DatumBytes(d)
    ensures t.kind == if d.Chars? then Str else Primitive
  {
    hide Strtoul.Printed, Strtoul.ToUnsigned, Strtoul.EndsAt, Le, AtDelimiter;
    if d.Chars? {
      CharsMean(js, t.start, t.end, d.text);
    } else {
      var text := d.sign + Strtoul.Printed(d.n, d.numeral);
      assert "" + text == text;
      DelimiterEnds(js, t.end);
      Strtoul.NumberRead(js, t.start, "", d.sign, d.n, d.numeral);
      LeBytes(NumberValue(d.sign, d.n));
    }
  }

  // ----- Arrays of data

  predicate Elements(js: string, ts: seq<Tree>) {
    forall k :: 0 <= k < |ts| ==> InText(js, ts[k]) && IsElement(ts[k])
  }

  lemma ElementsLast(js: string, ts: seq<Tree>)
    requires ts != [] && Elements(js, ts)
    ensures Elements(js, ts[1..]) && Elements(js, ts[..|ts| - 1]) && InText(js, ts[|ts| - 1]) && IsElement(ts[|ts| - 1])
    ensures ElementsData(js, ts) == ElementsData(js, ts[..|ts| - 1]) + ElementData(js, ts[|ts| - 1])
  {
  }

  lemma {:induction false} ElementsFirst(js: string, ts: seq<Tree>)
    requires ts != [] && Elements(js, ts)
    ensures Elements(js, ts[1..]) && InText(js, ts[0]) && IsElement(ts[0])
    ensures ElementsData(js, ts) == ElementData(js, ts[0]) + ElementsData(js, ts[1..])
  {
    hide ElementData, ElementsData, InText, IsElement;
    ElementsLast(js, ts);
    var init, last := ts[..|ts| - 1], ts[|ts| - 1];
    if |ts| > 1 {
      ElementsFirst(js, init);
      ElementsLast(js, ts[1..]);
      assert ts[1..][..|ts| - 2] == init[1..] && ts[1..][|ts| - 2] == last;
      Associate(ElementData(js, ts[0]), ElementsData(js, init[1..]), ElementData(js, last));
    } else {
      NoElements(js);
      assert init == [] && ts[1..] == [];
    }
  }

  lemma NoElements(js: string)
    ensures ElementsData(js, []) == []
  {
  }

  lemma {:induction false} DataMean(js: string, ts: seq<Tree>, ds: seq<Datum>)
    requires DataFormed(ds) && AllShow(js, ts, DataDocs(ds))
    ensures forall k :: 0 <= k < |ts| ==> InText(js, ts[k]) && IsElement(ts[k]) && ts[k].Leaf?
    ensures ElementsData(js, ts) == DataBytes(ds)
    decreases |ds|
  {
    hide DatumFormed, DatumDoc, Shows, InText, IsElement, ElementData, DatumBytes;
    if ds != [] {
      DatumMeans(js, ts[0], ds[0]);
      DataMean(js, ts[1..], ds[1..]);
      assert forall k :: 1 <= k < |ts| ==> ts[k] == ts[1..][k - 1];
      ElementsFirst(js, ts);
    }
  }

  lemma {:induction false} LeavesPaired(ts: seq<Tree>)
    requires forall k :: 0 <= k < |ts| ==> ts[k].Leaf?
    ensures Paired(ts)
    decreases |ts|
  {
    if ts != [] {
      LeavesPaired(ts[1..]);
    }
  }

  lemma ValueMeans(js: string, t: Tree, v: Value)
    requires ValueFormed(v) && Shows(js, t, ValueDoc(v)) && Sound(js, [t])
    ensures Paired([t]) && ValueData(js, t) == Some(ValueBytes(v))
  {
    hide ElementsData;
    match v {
      case One(d) =>
        DatumMeans(js, t, d);
        LeavesPaired([t]);
      case Many(_, ds, _) =>
        DataMean(js, t.kids, ds);
        LeavesPaired(t.kids);
        assert [t][1..] == [];
    }
  }

  // ----- Nodes

  /** The trees of a node's entries, and what they mean. */
  lemma {:induction false} EntriesMean(js: string, ts: seq<Tree>, es: seq<Entry>)
    requires EntriesFormed(es) && AllShow(js, ts, EntriesDocs(es)) && Sound(js, ts)
    ensures |ts| % 2 == 0 && Paired(ts)
    ensures ObjectContent(js, ts) == Some(Content(PropertiesOf(es), ChildrenOf(es)))
    decreases es, 1
  {
    hide Shows, AllShow, EntryDocs, EntriesDocs, EntryFormed, EntryContent, Sound, Paired;
    EntriesShown(js, ts, es);
    if es == [] {
      NonePaired();
    } else {
      SoundTwo(js, ts);
      EntryMeans(js, ts[0], ts[1], es[0]);
      EntriesMean(js, ts[2..], es[1..]);
      PairedTwo(ts);
    }
  }

  lemma EntriesShown(js: string, ts: seq<Tree>, es: seq<Entry>)
    requires EntriesFormed(es) && AllShow(js, ts, EntriesDocs(es))
    ensures |ts| == 2 * |es|
    ensures es != [] ==> Shows(js, ts[0], EntryDocs(es[0])[0]) && Shows(js, ts[1], EntryDocs(es[0])[1])
    ensures es != [] ==> AllShow(js, ts[2..], EntriesDocs(es[1..]))
  {
    hide Shows, EntryDocs, EntryFormed;
    if es != [] {
      assert EntriesDocs(es)[1..][1..] == EntriesDocs(es[1..]) && ts[1..][1..] == ts[2..];
    }
  }

  lemma NonePaired()
    ensures Paired([])
  {
  }

  lemma SoundTwo(js: string, ts: seq<Tree>)
    requires Sound(js, ts) && |ts| >= 2
    ensures Sound(js, [ts[0]]) && Sound(js, [ts[1]]) && Sound(js, ts[2..])
  {
    hide Sound;
    SoundFirst(js, ts);
    SoundFirst(js, ts[1..]);
    assert ts[1..][1..] == ts[2..];
  }

  lemma PairedTwo(ts: seq<Tree>)
    requires |ts| >= 2 && ts[0].Leaf? && Paired([ts[1]]) && Paired(ts[2..])
    ensures Paired(ts)
  {
    assert ts[1..][1..] == ts[2..] && [ts[1]][1..] == [];
  }

  lemma SoundFirst(js: string, ts: seq<Tree>)
    requires Sound(js, ts) && ts != []
    ensures Sound(js, [ts[0]]) && Sound(js, ts[1..])
  {
    assert [ts[0]][1..] == [];
  }

  lemma PairedFirst(ts: seq<Tree>)
    requires ts != []
    ensures Paired(ts) <==> Paired([ts[0]]) && Paired(ts[1..])
  {
    assert [ts[0]][1..] == [];
  }

  lemma {:induction false} EntryMeans(js: string, key: Tree, value: Tree, e: Entry)
    requires EntryFormed(e) && Shows(js, key, EntryDocs(e)[0]) && Shows(js, value, EntryDocs(e)[1])
    requires Sound(js, [key]) && Sound(js, [value])
    ensures key.Leaf? && Paired([value])
    ensures EntryContent(js, key, value) ==
            Some(if e.Named? then Content([F.Property(Characters(e.name), ValueBytes(e.value))], [])
                 else Content([], TreesMeant(e.nodes)))
    decreases e, 0
  {
    hide ValueData, ChildNodes, Occurs;
    match e {
      case Named(_, _, name, v) =>
        ValueMeans(js, value, v);
        CharsMean(js, key.start, key.end, name);
      case Subnodes(_, _, ns, _) =>
        assert [value][1..] == [];
        NodesMean(js, value.kids, ns);
    }
  }

  lemma {:induction false} NodeMeans(js: string, t: Tree, n: NodeText)
    requires EntriesFormed(n.entries) && Shows(js, t, NodeDoc(n)) && Sound(js, [t])
    ensures Paired([t])
    ensures NodeContent(js, t) == Some(Content(PropertiesOf(n.entries), ChildrenOf(n.entries)))
    decreases n, 0
  {
    hide ObjectContent, Occurs;
    EntriesMean(js, t.kids, n.entries);
    assert [t][1..] == [];
  }

  lemma {:induction false} NodesMean(js: string, ts: seq<Tree>, ns: seq<NodeText>)
    requires NodesFormed(ns) && AllShow(js, ts, NodeDocs(ns)) && Sound(js, ts)
    ensures Paired(ts) && ChildNodes(js, ts) == Some(TreesMeant(ns))
    decreases ns, 1
  {
    hide Shows, NodeDoc, NodeContent;
    if ns != [] {
      SoundFirst(js, ts);
      NodeMeans(js, ts[0], ns[0]);
      NodesMean(js, ts[1..], ns[1..]);
      PairedFirst(ts);
    }
  }

  // ----- How many nodes

  lemma {:induction false} NodeCountConcat(a: seq<F.Tree>, b: seq<F.Tree>)
    ensures W.NodeCountAll(a + b) == W.NodeCountAll(a) + W.NodeCountAll(b)
  {
    if a == [] {
      assert a + b == b;
    } else {
      assert (a + b)[1..] == a[1..] + b;
      NodeCountConcat(a[1..], b);
    }
  }

  /** The objects among the tokens of a node are its nodes. */
  lemma {:induction false} NodesCounted(js: string, t: Tree, n: NodeText)
    requires EntriesFormed(n.entries) && Shows(js, t, NodeDoc(n)) && Sound(js, [t])
    ensures Objects(Pre(t)) == W.NodeCount(TreeMeant(n))
    decreases n, 0
  {
    hide Occurs, Objects, PreAll;
    assert [t][1..] == [];
    EntriesCounted(js, t.kids, n.entries);
    ObjectsOfNode(t);
  }

  lemma {:induction false} EntriesCounted(js: string, ts: seq<Tree>, es: seq<Entry>)
    requires EntriesFormed(es) && AllShow(js, ts, EntriesDocs(es)) && Sound(js, ts)
    ensures Objects(PreAll(ts)) == W.NodeCountAll(ChildrenOf(es))
    decreases es, 1
  {
    hide Shows, AllShow, EntryDocs, EntriesDocs, EntryFormed, Sound, Pre, Objects, TreesMeant, W.NodeCountAll;
    EntriesShown(js, ts, es);
    if es == [] {
      NothingCounted();
    } else {
      SoundTwo(js, ts);
      EntryCounted(js, ts[0], ts[1], es[0]);
      EntriesCounted(js, ts[2..], es[1..]);
      assert ts[1..][1..] == ts[2..];
      ObjectsConcat(Pre(ts[1]), PreAll(ts[2..]));
      ObjectsConcat(Pre(ts[0]), PreAll(ts[1..]));
      NodeCountConcat(ChildrenOf(es[1..]), if es[0].Subnodes? then TreesMeant(es[0].nodes) else []);
      NothingCounted();
    }
  }

  lemma NothingCounted()
    ensures Objects(PreAll([])) == 0 && W.NodeCountAll([]) == 0
  {
  }

  lemma {:induction false} EntryCounted(js: string, key: Tree, value: Tree, e: Entry)
    requires EntryFormed(e) && Shows(js, key, EntryDocs(e)[0]) && Shows(js, value, EntryDocs(e)[1])
    requires Sound(js, [key]) && Sound(js, [value])
    ensures Objects(Pre(key)) == 0
    ensures Objects(Pre(value)) == if e.Subnodes? then W.NodeCountAll(TreesMeant(e.nodes)) else 0
    decreases e, 0
  {
    hide Occurs, PreAll;
    LeafCounted(key);
    match e {
      case Named(_, _, _, v) =>
        ValueCounted(js, value, v);
      case Subnodes(_, _, ns, _) =>
        assert [value][1..] == [];
        NodesAllCounted(js, value.kids, ns);
        ObjectsOfNode(value);
    }
  }

  lemma LeafCounted(t: Tree)
    requires t.Leaf?
    ensures Objects(Pre(t)) == if t.kind == Object then 1 else 0
  {
  }

  lemma ValueCounted(js: string, t: Tree, v: Value)
    requires ValueFormed(v) && Shows(js, t, ValueDoc(v)) && Sound(js, [t])
    ensures Objects(Pre(t)) == 0
  {
    hide Objects, Pre, PreAll, ElementsData;
    match v {
      case One(d) =>
        DatumMeans(js, t, d);
        LeafCounted(t);
      case Many(_, ds, _) =>
        assert [t][1..] == [];
        DataMean(js, t.kids, ds);
        NoObjects(t.kids);
        ObjectsOfNode(t);
    }
  }

  lemma {:induction false} NodesAllCounted(js: string, ts: seq<Tree>, ns: seq<NodeText>)
    requires NodesFormed(ns) && AllShow(js, ts, NodeDocs(ns)) && Sound(js, ts)
    ensures Objects(PreAll(ts)) == W.NodeCountAll(TreesMeant(ns))
    decreases ns, 1
  {
    hide Shows, NodeDoc, Pre, Objects, TreeMeant, W.NodeCount;
    if ns == [] {
      NothingCounted();
    } else {
      SoundFirst(js, ts);
      NodesCounted(js, ts[0], ns[0]);
      NodesAllCounted(js, ts[1..], ns[1..]);
      ObjectsConcat(Pre(ts[0]), PreAll(ts[1..]));
      NodeCountConcat(TreesMeant(ns[1..]), [TreeMeant(ns[0])]);
      OneCounted(TreeMeant(ns[0]));
    }
  }

  lemma OneCounted(t: F.Tree)
    ensures W.NodeCountAll([t]) == W.NodeCount(t)
  {
    assert [t][1..] == [];
  }

  // ----- The whole text

  /** A device tree that is written well: the text of its root, and a gap behind it. */
  predicate WellWritten(root: NodeText, after: Gap) {
    EntriesFormed(root.entries) && Valid(NodeDoc(root)) && ValidGap(after)
  }

  function TextOf(root: NodeText, after: Gap): string
    requires WellWritten(root, after)
  {
    Print(NodeDoc(root)) + PrintGap(after)
  }

  lemma OneDoc(d: Doc, after: Gap)
    requires Valid(d) && d.Bracket?
    ensures AllValid([d]) && Delimited([d], after, true) && PrintAll([d]) == Print(d)
    ensures TreesOf([d], 0) == [TreeOf(d, 0)]
  {
    assert [d][1..] == [];
    assert PrintAll([d]) == Print(d) + PrintAll([]);
  }

  /** The text is accepted and means the tree. */
  lemma TextMeans(root: NodeText, after: Gap)
    requires WellWritten(root, after)
    ensures var raw := TextOf(root, after);
            && Jsdt.Document(raw).outcome == J.Success && Jsdt.Walkable(raw)
            && Jsdt.Meaning(raw) == Some(Content(PropertiesOf(root.entries), ChildrenOf(root.entries)))
            && Objects(Pre(Jsdt.Document(raw).nest.top[0])) == W.NodeCount(TreeMeant(root))
  {
    hide Print, PrintAll, PrintGap, J.Parse, NodeDoc, Valid, ValidGap, TreeOf, TreesOf, NodeContent, Shows, Sound,
         Objects, Pre, W.NodeCount;
    var d, raw := NodeDoc(root), TextOf(root, after);
    RootDoc(root);
    OneDoc(d, after);
    var t := TreeOf(d, 0);
    AllTokensFit([d], 0);
    PrintedRead([d], after, |raw|);
    PrintedShown([d], after);
    assert AllShow(raw, [t], [d]);
    J.ParseIsForest(raw, |raw|);
    NestedSound(raw, [t], 0, |raw|);
    NodeMeans(raw, t, root);
    NodesCounted(raw, t, root);
    PairedTokens([t]);
  }

  lemma RootDoc(root: NodeText)
    requires EntriesFormed(root.entries)
    ensures NodeDoc(root).Bracket?
  {
  }

  /** parse_jsdt_device_tree on a well written text: it succeeds and builds the tree that was
      written, below a root named "/", and counts its nodes. */
  method ParseWritten(raw: string, ghost root: NodeText, ghost after: Gap) returns (dt: B.DeviceTree, nodes: nat)
    requires WellWritten(root, after) && raw == TextOf(root, after)
    ensures fresh(dt) && dt.Valid()
    ensures B.TreeAt(dt.nodes, 0) ==
            F.Tree([F.Property([110, 97, 109, 101], [47, 0])] + PropertiesOf(root.entries), ChildrenOf(root.entries))
    ensures nodes == W.NodeCount(B.TreeAt(dt.nodes, 0))
  {
    hide WellWritten, TextOf, Jsdt.Walkable, Jsdt.Meaning, Jsdt.Document, PropertiesOf, ChildrenOf, B.TreeAt, Objects,
         Pre, W.NodeCountAll;
    TextMeans(root, after);
    var ok;
    ok, dt, nodes := Jsdt.ParseJsdt(raw);
    assert [47] + [0] == [47, 0];
    assert B.NameProperty(B.ROOT_NAME) == F.Property([110, 97, 109, 101], [47, 0]);
  }
}

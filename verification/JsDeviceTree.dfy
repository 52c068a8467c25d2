/** From JSDT tokens to the device tree. What a document means is said over the forest of
    module JsmnTree; the walker sees only the flat token array. */
module JsDeviceTree {
  import opened Bytes
  import opened JsmnTree
  import opened Strtoul
  import opened Wrappers
  import F = FlatTree
  import B = DeviceTreeBuilder
  import J = Jsmn

  const DT_INT := 4

  // ----- What a document means

  /** The characters of a token, one byte each. */
  function Text(js: string, a: nat, e: nat): (s: seq<byte>)
    requires a <= e <= |js|
    ensures |s| == e - a
  {
    seq(e - a, k requires 0 <= k < e - a => js[a + k] as int % 0x100)
  }

  /** Every token lies in the text, and exactly objects and arrays have children. */
  ghost predicate Sound(js: string, ts: seq<Tree>)
    decreases ts
  {
    ts == [] ||
    (var t := ts[0];
     && t.start <= t.end <= |js|
     && (t.Node? <==> t.kind == Object || t.kind == Array)
     && (t.Node? ==> Sound(js, t.kids))
     && Sound(js, ts[1..]))
  }

  /** Objects come in pairs of key and value; the walker would run past an odd one. */
  ghost predicate Paired(ts: seq<Tree>)
    decreases ts
  {
    ts == [] ||
    (var t := ts[0];
     && (t.Node? && t.kind == Object ==> |t.kids| % 2 == 0)
     && (t.Node? ==> Paired(t.kids))
     && Paired(ts[1..]))
  }

  predicate InText(js: string, t: Tree) {
    t.start <= t.end <= |js|
  }

  function StringData(js: string, t: Tree): seq<byte>
    requires InText(js, t)
  {
    Text(js, t.start, t.end) + [0]
  }

  function IntegerData(js: string, t: Tree): seq<byte> {
    Le(ToUnsigned(js, t.start), DT_INT)
  }

  /** Data arrays hold strings and integers. */
  predicate IsElement(t: Tree) {
    t.kind == Str || t.kind == Primitive
  }

  function ElementData(js: string, t: Tree): seq<byte>
    requires InText(js, t) && IsElement(t)
  {
    if t.kind == Str then StringData(js, t) else IntegerData(js, t)
  }

  /** Strings with terminators and 32-bit integers, one after another. */
  function ElementsData(js: string, ts: seq<Tree>): seq<byte>
    requires forall k :: 0 <= k < |ts| ==> InText(js, ts[k]) && IsElement(ts[k])
  {
    if ts == [] then [] else ElementsData(js, ts[..|ts| - 1]) + ElementData(js, ts[|ts| - 1])
  }

  function ArrayData(js: string, ts: seq<Tree>): Option<seq<byte>>
    requires Sound(js, ts)
  {
    SoundInText(js, ts);
    if forall k :: 0 <= k < |ts| ==> IsElement(ts[k]) then Some(ElementsData(js, ts)) else None
  }

  lemma {:induction false} SoundInText(js: string, ts: seq<Tree>)
    requires Sound(js, ts)
    ensures forall k :: 0 <= k < |ts| ==> InText(js, ts[k])
    ensures forall k :: 0 <= k < |ts| ==> (ts[k].Node? <==> ts[k].kind == Object || ts[k].kind == Array)
    decreases |ts|
  {
    if ts != [] {
      SoundInText(js, ts[1..]);
    }
  }

  /** Properties in order of insertion, children in list order. */
  datatype Content = Content(props: seq<F.Property>, kids: seq<F.Tree>)

  /** A property's value, if the token can be one. */
  function ValueData(js: string, value: Tree): Option<seq<byte>>
    requires Sound(js, [value])
  {
    match value.kind
    case Str => Some(StringData(js, value))
    case Primitive => Some(IntegerData(js, value))
    case Array => ArrayData(js, value.kids)
    case _ => None
  }

  /** One key and its value. */
  function EntryContent(js: string, key: Tree, value: Tree): Option<Content>
    requires Sound(js, [key]) && Sound(js, [value]) && Paired([value])
    decreases value, 1
  {
    if key.kind == Str then
      match ValueData(js, value)
      case None => None
      case Some(data) => Some(Content([F.Property(StringName(js, key), data)], []))
    else if key.kind == Children && value.kind == Array then
      match ChildNodes(js, value.kids)
      case None => None
      case Some(ks) => Some(Content([], ks))
    else None
  }

  function StringName(js: string, t: Tree): seq<byte>
    requires InText(js, t)
  {
    Text(js, t.start, t.end)
  }

  /** The entries of an object. Later children go in front of earlier ones. */
  function ObjectContent(js: string, ts: seq<Tree>): Option<Content>
    requires Sound(js, ts) && Paired(ts) && |ts| % 2 == 0
    decreases ts, 0
  {
    if ts == [] then Some(Content([], []))
    else
      SoundParts(js, ts);
      match EntryContent(js, ts[0], ts[1])
      case None => None
      case Some(a) =>
        match ObjectContent(js, ts[2..])
        case None => None
        case Some(b) => Some(Content(a.props + b.props, b.kids + a.kids))
  }

  function NodeContent(js: string, t: Tree): Option<Content>
    requires Sound(js, [t]) && Paired([t])
    decreases t, 2
  {
    if t.kind == Object then ObjectContent(js, t.kids) else None
  }

  /** An array of child nodes, each put in front of those before it. */
  function ChildNodes(js: string, ts: seq<Tree>): Option<seq<F.Tree>>
    requires Sound(js, ts) && Paired(ts)
    decreases ts, 0
  {
    if ts == [] then Some([])
    else
      match NodeContent(js, ts[0])
      case None => None
      case Some(c) =>
        match ChildNodes(js, ts[1..])
        case None => None
        case Some(ks) => Some(ks + [F.Tree(c.props, c.kids)])
  }

  lemma SoundParts(js: string, ts: seq<Tree>)
    requires Sound(js, ts) && Paired(ts) && |ts| >= 2
    ensures Sound(js, [ts[0]]) && Sound(js, [ts[1]]) && Paired([ts[1]])
    ensures Sound(js, ts[2..]) && Paired(ts[2..])
  {
    assert ts[1..][1..] == ts[2..];
    assert [ts[0]][1..] == [] && [ts[1]][1..] == [];
  }

  // ----- Which documents describe a node

  /** A string with a string, a primitive or an array of such behind it, or a children sign
      with an array of nodes behind it. */
  predicate IsEntry(key: Tree, value: Tree)
    decreases value, 1
  {
    || (key.kind == Str &&
        (value.kind == Str || value.kind == Primitive ||
         (value.Node? && value.kind == Array && forall k :: 0 <= k < |value.kids| ==> IsElement(value.kids[k]))))
    || (key.kind == Children && value.Node? && value.kind == Array && AreNodes(value.kids))
  }

  predicate AreEntries(ts: seq<Tree>)
    decreases ts, 0
  {
    ts == [] || (|ts| > 1 && IsEntry(ts[0], ts[1]) && AreEntries(ts[2..]))
  }

  predicate IsNode(t: Tree)
    decreases t, 2
  {
    t.Node? && t.kind == Object && AreEntries(t.kids)
  }

  predicate AreNodes(ts: seq<Tree>)
    decreases ts, 0
  {
    ts == [] || (IsNode(ts[0]) && AreNodes(ts[1..]))
  }

  /** A tree has a meaning exactly when it is the object of a node. */
  lemma {:induction false} MeaningIff(js: string, t: Tree)
    requires Sound(js, [t]) && Paired([t])
    ensures NodeContent(js, t).Some? <==> IsNode(t)
    decreases t, 2
  {
    hide ObjectContent;
    if t.kind == Object {
      EntriesIff(js, t.kids);
    }
  }

  lemma {:induction false} EntriesIff(js: string, ts: seq<Tree>)
    requires Sound(js, ts) && Paired(ts) && |ts| % 2 == 0
    ensures ObjectContent(js, ts).Some? <==> AreEntries(ts)
    decreases ts, 0
  {
    hide EntryContent, IsEntry;
    if ts != [] {
      SoundParts(js, ts);
      EntryIff(js, ts[0], ts[1]);
      EntriesIff(js, ts[2..]);
    }
  }

  lemma {:induction false} EntryIff(js: string, key: Tree, value: Tree)
    requires Sound(js, [key]) && Sound(js, [value]) && Paired([value])
    ensures EntryContent(js, key, value).Some? <==> IsEntry(key, value)
    decreases value, 1
  {
    hide ElementsData, ChildNodes;
    if key.kind == Children && value.kind == Array {
      NodesIff(js, value.kids);
    }
  }

  lemma {:induction false} NodesIff(js: string, ts: seq<Tree>)
    requires Sound(js, ts) && Paired(ts)
    ensures ChildNodes(js, ts).Some? <==> AreNodes(ts)
    decreases ts, 0
  {
    hide NodeContent, IsNode;
    if ts != [] {
      assert [ts[0]][1..] == [];
      MeaningIff(js, ts[0]);
      NodesIff(js, ts[1..]);
    }
  }

  /** A well nested document is sound. */
  lemma {:induction false} NestedSound(js: string, ts: seq<Tree>, lo: nat, hi: nat)
    requires J.Nested(ts, lo, hi) && hi <= |js|
    ensures Sound(js, ts)
    decreases ts
  {
    if ts != [] {
      var t := ts[0];
      J.NestedRange(ts[1..], J.After(t), hi);
      NestedSound(js, ts[1..], J.After(t), hi);
      if t.Node? {
        NestedSound(js, t.kids, t.start + 1, t.end - 1);
      }
    }
  }

  /** Every object token has an even size. */
  ghost predicate EvenObjects(s: seq<Token>) {
    forall i :: 0 <= i < |s| && s[i].kind == Object ==> s[i].size % 2 == 0
  }

  lemma EvenConcat(a: seq<Token>, b: seq<Token>)
    ensures EvenObjects(a + b) <==> EvenObjects(a) && EvenObjects(b)
  {
    if EvenObjects(a + b) {
      assert forall i :: 0 <= i < |a| ==> a[i] == (a + b)[i];
      assert forall i :: 0 <= i < |b| ==> b[i] == (a + b)[|a| + i];
    }
  }

  /** Pairing, seen on the token array. */
  lemma {:induction false} PairedTokens(ts: seq<Tree>)
    ensures Paired(ts) <==> EvenObjects(PreAll(ts))
    decreases ts
  {
    if ts != [] {
      var t := ts[0];
      PairedTokens(ts[1..]);
      EvenConcat(Pre(t), PreAll(ts[1..]));
      if t.Node? {
        PairedTokens(t.kids);
        EvenConcat([Token(t.kind, t.start, t.end, |t.kids|)], PreAll(t.kids));
        OneToken(Token(t.kind, t.start, t.end, |t.kids|));
      } else {
        OneToken(Token(t.kind, t.start, t.end, 0));
      }
    }
  }

  lemma OneToken(t: Token)
    ensures EvenObjects([t]) <==> (t.kind == Object ==> t.size % 2 == 0)
  {
    assert [t][0] == t;
  }

  // ----- How the pool grows

  /** Between the pools `a` and `b`, node `me` has got `c`: properties at the end, children
      at the front, made of new nodes. No other node has changed. */
  ghost predicate Grown(a: seq<B.Node>, b: seq<B.Node>, me: nat, c: Content) {
    && B.WellFounded(a) && B.WellFounded(b) && me < |a| <= |b|
    && (forall j :: 0 <= j < |a| && j != me ==> b[j] == a[j])
    && b[me].props == a[me].props + c.props
    && |b[me].kids| >= |a[me].kids|
    && var n := |b[me].kids| - |a[me].kids|;
       && b[me].kids[n..] == a[me].kids
       && (forall k :: 0 <= k < n ==> b[me].kids[k] >= |a|)
       && B.Later(b, me, b[me].kids[..n])
       && B.TreesAt(b, me, b[me].kids[..n]) == c.kids
  }

  /** The tree under a node depends only on the nodes from it on. */
  lemma {:induction false} TreeFrame(a: seq<B.Node>, b: seq<B.Node>, i: nat)
    requires B.WellFounded(a) && B.WellFounded(b) && i < |a| <= |b|
    requires forall j :: i <= j < |a| ==> b[j] == a[j]
    ensures B.TreeAt(b, i) == B.TreeAt(a, i)
    decreases |a| - i, 1, 0
  {
    assert B.Later(a, i, a[i].kids);
    TreesFrame(a, b, i, i, a[i].kids);
  }

  lemma {:induction false} TreesFrame(a: seq<B.Node>, b: seq<B.Node>, i: nat, i': nat, ks: seq<nat>)
    requires B.WellFounded(a) && B.WellFounded(b) && i < |a| <= |b| && i' < |b|
    requires B.Later(a, i, ks) && B.Later(b, i', ks)
    requires forall j :: i < j < |a| ==> b[j] == a[j]
    ensures B.TreesAt(b, i', ks) == B.TreesAt(a, i, ks)
    decreases |a| - i, 0, |ks|
  {
    if ks != [] {
      TreeFrame(a, b, ks[0]);
      TreesFrame(a, b, i, i', ks[1..]);
    }
  }

  lemma GrownNothing(a: seq<B.Node>, me: nat)
    requires B.WellFounded(a) && me < |a|
    ensures Grown(a, a, me, Content([], []))
  {
    assert a[me].kids[..0] == [];
  }

  lemma {:induction false} TreesAtConcat(a: seq<B.Node>, i: nat, ks: seq<nat>, ls: seq<nat>)
    requires B.WellFounded(a) && i < |a| && B.Later(a, i, ks) && B.Later(a, i, ls) && B.Later(a, i, ks + ls)
    ensures B.TreesAt(a, i, ks + ls) == B.TreesAt(a, i, ks) + B.TreesAt(a, i, ls)
    decreases |ks|
  {
    hide B.TreeAt;
    if ks == [] {
      assert ks + ls == ls;
    } else {
      assert (ks + ls)[1..] == ks[1..] + ls;
      TreesAtConcat(a, i, ks[1..], ls);
    }
  }

  /** Growth in two steps. */
  lemma GrownTwice(a: seq<B.Node>, b: seq<B.Node>, c: seq<B.Node>, me: nat, x: Content, y: Content)
    requires Grown(a, b, me, x) && Grown(b, c, me, y)
    ensures Grown(a, c, me, Content(x.props + y.props, y.kids + x.kids))
  {
    hide B.TreesAt, B.TreeAt;
    var n, m := |b[me].kids| - |a[me].kids|, |c[me].kids| - |b[me].kids|;
    var ks, ls := b[me].kids[..n], c[me].kids[..m];
    assert c[me].kids[..m + n] == ls + ks && c[me].kids[m + n..] == a[me].kids;
    assert B.Later(c, me, c[me].kids);
    assert B.Later(c, me, ls + ks) && B.Later(c, me, ks);
    TreesAtConcat(c, me, ls, ks);
    assert B.TreesAt(c, me, ks) == B.TreesAt(b, me, ks) by {
      KidsFrame(b, c, me, ks);
    }
    forall k | 0 <= k < m + n ensures c[me].kids[k] >= |a| {
      if k >= m {
        assert c[me].kids[k] == ks[k - m];
      }
    }
  }

  lemma {:induction false} KidsFrame(b: seq<B.Node>, c: seq<B.Node>, me: nat, ks: seq<nat>)
    requires B.WellFounded(b) && B.WellFounded(c) && me < |b| <= |c|
    requires B.Later(b, me, ks) && B.Later(c, me, ks)
    requires forall j :: 0 <= j < |b| && j != me ==> c[j] == b[j]
    ensures B.TreesAt(c, me, ks) == B.TreesAt(b, me, ks)
    decreases |ks|
  {
    TreesFrame(b, c, me, me, ks);
  }

  lemma GrownProperty(a: seq<B.Node>, me: nat, p: F.Property)
    requires B.WellFounded(a) && me < |a|
    ensures Grown(a, B.WithProperty(a, me, p), me, Content([p], []))
  {
    B.WithPropertyWellFounded(a, me, p);
    assert a[me].kids[..0] == [];
  }

  /** A new first child that has then got `c`. */
  lemma GrownChild(a: seq<B.Node>, b: seq<B.Node>, me: nat, c: Content)
    requires B.WellFounded(a) && me < |a|
    requires Grown(B.WithChild(a, me), b, |a|, c)
    ensures Grown(a, b, me, Content([], [F.Tree(c.props, c.kids)]))
  {
    var w, n := B.WithChild(a, me), |a|;
    assert b[n].props == [] + c.props;
    assert w[n] == B.Node([], []) && b[n].kids[..|b[n].kids|] == b[n].kids;
    assert B.TreeAt(b, n) == F.Tree(c.props, c.kids);
    assert b[me].kids == [n] + a[me].kids;
    assert b[me].kids[..1] == [n];
    assert [n][1..] == [];
    assert B.TreesAt(b, me, [n]) == [B.TreeAt(b, n)];
  }
}

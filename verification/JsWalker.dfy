/** The recursive walk over the flat token array. */
module JsWalker {
  import opened Bytes
  import opened JsmnTree
  import opened Strtoul
  import opened JsDeviceTree
  import opened Wrappers
  import F = FlatTree
  import B = DeviceTreeBuilder
  import W = FlatWriter

  const PARSER_ERROR := -1

  /** Number of object tokens. */
  function Objects(s: seq<Token>): nat {
    if s == [] then 0 else (if s[0].kind == Object then 1 else 0) + Objects(s[1..])
  }

  lemma {:induction false} ObjectsConcat(a: seq<Token>, b: seq<Token>)
    ensures Objects(a + b) == Objects(a) + Objects(b)
  {
    if a == [] {
      assert a + b == b;
    } else {
      assert (a + b)[1..] == a[1..] + b;
      ObjectsConcat(a[1..], b);
    }
  }

  /** The first tokens of a list of trees whose first `k` are leaves. */
  lemma {:induction false} LeafTokens(ts: seq<Tree>, k: nat)
    requires k < |ts| && forall j :: 0 <= j < k ==> ts[j].Leaf?
    ensures |PreAll(ts)| > k
    ensures PreAll(ts)[k].kind == ts[k].kind && PreAll(ts)[k].start == ts[k].start && PreAll(ts)[k].end == ts[k].end
    ensures (forall j :: 0 <= j < |ts| ==> ts[j].Leaf?) ==> |PreAll(ts)| == |ts|
    decreases |ts|
  {
    if k > 0 {
      LeafTokens(ts[1..], k - 1);
    } else if |ts| > 1 && ts[0].Leaf? {
      LeafTokens(ts[1..], 0);
    }
  }

  class Context {
    const raw: string
    const tokens: seq<Token>
    const dt: B.DeviceTree
    var nodeCount: nat

    constructor (raw: string, tokens: seq<Token>, dt: B.DeviceTree)
      ensures this.raw == raw && this.tokens == tokens && this.dt == dt && nodeCount == 0
    {
      this.raw, this.tokens, this.dt, nodeCount := raw, tokens, dt, 0;
    }

    /** The tokens from `i` on list the trees `ts`. */
    ghost predicate Stand(i: nat, ts: seq<Tree>) {
      i + |PreAll(ts)| <= |tokens| && tokens[i..i + |PreAll(ts)|] == PreAll(ts)
    }

    /** parse_data_array, first pass: the size of the buffer, or the error. */
    method MeasureArray(i: nat, ghost t: Tree) returns (cnt: int)
      requires Stand(i, [t]) && t.Node? && Sound(raw, t.kids)
      ensures cnt == PARSER_ERROR <==> ArrayData(raw, t.kids) == None
      ensures cnt != PARSER_ERROR ==> cnt == |ArrayData(raw, t.kids).value|
    {
      hide ElementsData, Sound;
      ghost var ks := t.kids;
      SoundInText(raw, ks);
      Listed(i, t);
      var nested, k: nat := tokens[i].size, 1;
      cnt := 0;
      NoElements(raw, ks);
      while nested != 0
        invariant nested + (k - 1) == |ks| && k >= 1 && nested >= 0
        invariant forall j :: 0 <= j < k - 1 ==> IsElement(ks[j])
        invariant cnt == |ElementsData(raw, ks[..k - 1])|
        decreases nested
      {
        LeafTokens(ks, k - 1);
        var token := tokens[i + k];
        assert token == PreAll(ks)[k - 1];
        if token.kind == Str {
          ElementsStep(raw, ks, k);
          cnt := cnt + (token.end - token.start) + 1;
        } else if token.kind == Primitive {
          ElementsStep(raw, ks, k);
          cnt := cnt + DT_INT;
        } else {
          return PARSER_ERROR;
        }
        nested := nested - 1;
        k := k + 1;
      }
      assert ks[..|ks|] == ks;
    }

    /** parse_data_array, second pass. */
    method FillArray(buf: array<byte>, i: nat, ghost t: Tree) returns (k: nat)
      requires Stand(i, [t]) && t.Node? && Sound(raw, t.kids)
      requires ArrayData(raw, t.kids).Some? && buf.Length == |ArrayData(raw, t.kids).value|
      modifies buf
      ensures buf[..] == ArrayData(raw, t.kids).value
      ensures k == |Pre(t)|
    {
      hide ElementsData, Sound;
      ghost var ks := t.kids;
      SoundInText(raw, ks);
      Listed(i, t);
      var nested, cnt: nat := tokens[i].size, 0;
      k := 1;
      NoElements(raw, ks);
      while nested != 0
        invariant nested + (k - 1) == |ks| && k >= 1 && nested >= 0
        invariant cnt == |ElementsData(raw, ks[..k - 1])| <= buf.Length
        invariant buf[..cnt] == ElementsData(raw, ks[..k - 1])
        decreases nested
      {
        cnt := FillElement(buf, cnt, i, k, t);
        nested := nested - 1;
        k := k + 1;
      }
      assert ks[..|ks|] == ks && buf[..cnt] == buf[..];
      if |ks| > 0 {
        LeafTokens(ks, 0);
      }
    }

    method FillElement(buf: array<byte>, cnt: nat, i: nat, k: nat, ghost t: Tree) returns (cnt': nat)
      requires Stand(i, [t]) && t.Node? && 1 <= k <= |t.kids|
      requires forall j :: 0 <= j < |t.kids| ==> InText(raw, t.kids[j]) && IsElement(t.kids[j])
      requires forall j :: 0 <= j < |t.kids| ==> t.kids[j].Leaf?
      requires buf.Length == |ElementsData(raw, t.kids)|
      requires cnt == |ElementsData(raw, t.kids[..k - 1])| <= buf.Length
      requires buf[..cnt] == ElementsData(raw, t.kids[..k - 1])
      modifies buf
      ensures cnt' == |ElementsData(raw, t.kids[..k])| <= buf.Length
      ensures buf[..cnt'] == ElementsData(raw, t.kids[..k])
    {
      hide ElementsData, W.Overwrite;
      ghost var ks := t.kids;
      Listed(i, t);
      LeafTokens(ks, k - 1);
      ElementsPrefix(raw, ks, k);
      var token := tokens[i + k];
      assert token == PreAll(ks)[k - 1];
      var data := if token.kind == Str then Text(raw, token.start, token.end) + [0]
                  else Le(ToUnsigned(raw, token.start), DT_INT);
      assert data == ElementData(raw, ks[k - 1]);
      ghost var s := buf[..];
      B.CopyBytes(buf, cnt, data);
      cnt' := cnt + |data|;
      OverwrittenFront(s, cnt, data);
      assert buf[..cnt'] == buf[..][..cnt'];
    }

    /** parse_data_array: the number of tokens used, or the error. */
    method ParseDataArray(i: nat, ghost t: Tree) returns (ret: int, data: seq<byte>)
      requires Stand(i, [t]) && t.Node? && Sound(raw, t.kids)
      ensures ret == PARSER_ERROR <==> ArrayData(raw, t.kids) == None
      ensures ret != PARSER_ERROR ==> ret == |Pre(t)| && Some(data) == ArrayData(raw, t.kids)
    {
      var cnt := MeasureArray(i, t);
      if cnt == PARSER_ERROR {
        return PARSER_ERROR, [];
      }
      var buf := new byte[cnt];
      ret := FillArray(buf, i, t);
      data := buf[..];
    }

    /** walk_children: a new child node for every element of the array. */
    method WalkChildren(i: nat, node: nat, ghost t: Tree) returns (ret: int)
      requires dt.Valid() && node < |dt.nodes|
      requires Stand(i, [t]) && t.Node? && Sound(raw, t.kids) && Paired(t.kids)
      modifies this, dt
      ensures dt.Valid()
      ensures ret == PARSER_ERROR <==> ChildNodes(raw, t.kids) == None
      ensures ret != PARSER_ERROR ==>
                && ret == |Pre(t)|
                && Grown(old(dt.nodes), dt.nodes, node, Content([], ChildNodes(raw, t.kids).value))
                && nodeCount == old(nodeCount) + Objects(PreAll(t.kids))
      decreases t, 1
    {
      hide Objects, Sound, Paired, NodeContent, B.TreeAt, B.TreesAt, B.Counts, Grown;
      Listed(i, t);
      var nested, k: nat := tokens[i].size, 1;
      ghost var ts, acc := t.kids, [];
      GrownNothing(dt.nodes, node);
      NoKidsBefore(raw, ts);
      NothingListed();
      while nested != 0
        invariant nested == |ts| && k + |PreAll(ts)| == |Pre(t)|
        invariant ts == t.kids[|t.kids| - |ts|..]
        invariant Stand(i + k, ts) && Sound(raw, ts) && Paired(ts)
        invariant dt.Valid() && Grown(old(dt.nodes), dt.nodes, node, Content([], acc))
        invariant ChildNodes(raw, t.kids) == KidsThen(acc, ChildNodes(raw, ts))
        invariant nodeCount + Objects(PreAll(ts)) == old(nodeCount) + Objects(PreAll(t.kids))
        decreases nested
      {
        ghost var before := dt.nodes;
        GrownBounds(old(dt.nodes), before, node, Content([], acc));
        FirstListed(i + k, ts);
        FirstSound(raw, ts);
        ObjectsConcat(Pre(ts[0]), PreAll(ts[1..]));
        var skip := WalkChild(i + k, node, ts[0]);
        NodesThen(raw, ts, acc);
        if skip == PARSER_ERROR {
          return PARSER_ERROR;
        }
        ghost var c := NodeContent(raw, ts[0]).value;
        GrownKids(old(dt.nodes), before, dt.nodes, node, acc, [F.Tree(c.props, c.kids)]);
        ts, acc := ts[1..], [F.Tree(c.props, c.kids)] + acc;
        nested, k := nested - 1, k + skip;
      }
      NoKidsAfter(raw, acc);
      ret := k;
    }

    /** A new first child, built from the object at `i`. */
    method WalkChild(i: nat, node: nat, ghost t: Tree) returns (ret: int)
      requires dt.Valid() && node < |dt.nodes|
      requires Stand(i, [t]) && Sound(raw, [t]) && Paired([t])
      modifies this, dt
      ensures dt.Valid()
      ensures ret == PARSER_ERROR <==> NodeContent(raw, t) == None
      ensures ret != PARSER_ERROR ==>
                && ret == |Pre(t)|
                && (var c := NodeContent(raw, t).value;
                    Grown(old(dt.nodes), dt.nodes, node, Content([], [F.Tree(c.props, c.kids)])))
                && nodeCount == old(nodeCount) + Objects(Pre(t))
      decreases t, 4
    {
      hide Objects, Sound, Paired, NodeContent, B.TreeAt, B.TreesAt, B.Counts, Grown;
      var me := dt.AddChild(node, None);
      ret := BuildNode(i, me, t);
      if ret != PARSER_ERROR {
        GrownChild(old(dt.nodes), dt.nodes, node, NodeContent(raw, t).value);
      }
    }

    /** parse_in_node_token: one key with its value. */
    method ParseInNode(i: nat, node: nat, ghost key: Tree, ghost value: Tree) returns (ret: int)
      requires dt.Valid() && node < |dt.nodes|
      requires Stand(i, [key, value]) && Sound(raw, [key]) && Sound(raw, [value]) && Paired([value])
      modifies this, dt
      ensures dt.Valid()
      ensures ret == PARSER_ERROR <==> EntryContent(raw, key, value) == None
      ensures ret != PARSER_ERROR ==>
                && ret == |Pre(key)| + |Pre(value)|
                && Grown(old(dt.nodes), dt.nodes, node, EntryContent(raw, key, value).value)
                && nodeCount == old(nodeCount) + Objects(Pre(key) + Pre(value))
      decreases value, 2
    {
      hide B.TreeAt, B.TreesAt, B.Counts, Grown, ChildNodes;
      PairListed(i, key, value);
      var k := tokens[i];
      ret := 2;
      if k.kind == Str {
        var keystr := Text(raw, k.start, k.end);
        var v := tokens[i + 1];
        var blob;
        if v.kind == Str {
          blob := Text(raw, v.start, v.end) + [0];
        } else if v.kind == Primitive {
          blob := Le(ToUnsigned(raw, v.start), DT_INT);
        } else if v.kind == Array {
          ret, blob := ParseDataArray(i + 1, value);
          if ret == PARSER_ERROR {
            return;
          }
          ret := ret + 1;
          SoundInText(raw, value.kids);
          NoObjects(value.kids);
          ObjectsOfNode(value);
        } else {
          return PARSER_ERROR;
        }
        assert Some(blob) == ValueData(raw, value);
        GrownProperty(dt.nodes, node, F.Property(keystr, blob));
        dt.AddProperty(node, keystr, blob);
      } else if k.kind == Children {
        var v := tokens[i + 1];
        if v.kind != Array {
          return PARSER_ERROR;
        }
        ret := WalkChildren(i + 1, node, value);
        if ret != PARSER_ERROR {
          ret := ret + 1;
        }
      } else {
        ret := PARSER_ERROR;
      }
    }

    /** build_node: the entries of one object, added to node `me`. */
    method BuildNode(i: nat, me: nat, ghost t: Tree) returns (ret: int)
      requires dt.Valid() && me < |dt.nodes|
      requires Stand(i, [t]) && Sound(raw, [t]) && Paired([t])
      modifies this, dt
      ensures dt.Valid()
      ensures ret == PARSER_ERROR <==> NodeContent(raw, t) == None
      ensures ret != PARSER_ERROR ==>
                && ret == |Pre(t)|
                && Grown(old(dt.nodes), dt.nodes, me, NodeContent(raw, t).value)
                && nodeCount == old(nodeCount) + Objects(Pre(t))
      decreases t, 3
    {
      hide Objects, B.TreeAt, B.TreesAt, B.Counts, Grown, EntryContent, ObjectContent, NodeContent, Then, Sound,
           Paired, Pre, PreAll;
      RootListed(i, t);
      NodeParts(raw, t);
      var nested, k: nat := tokens[i].size, 1;
      if tokens[i].kind != Object {
        return PARSER_ERROR;
      }
      Listed(i, t);
      ghost var ts, acc := t.kids, Content([], []);
      GrownNothing(dt.nodes, me);
      NothingBefore(raw, ts);
      NothingListed();
      while nested != 0
        invariant nested == |ts| && |ts| % 2 == 0 && k + |PreAll(ts)| == |Pre(t)|
        invariant ts == t.kids[|t.kids| - |ts|..]
        invariant Stand(i + k, ts) && Sound(raw, ts) && Paired(ts)
        invariant dt.Valid() && Grown(old(dt.nodes), dt.nodes, me, acc)
        invariant NodeContent(raw, t) == Then(acc, ObjectContent(raw, ts))
        invariant nodeCount + Objects(PreAll(ts)) == old(nodeCount) + Objects(PreAll(t.kids))
        decreases nested
      {
        ghost var before := dt.nodes;
        GrownBounds(old(dt.nodes), before, me, acc);
        TwoListed(i + k, ts);
        SoundParts(raw, ts);
        ObjectsConcat(Pre(ts[0]) + Pre(ts[1]), PreAll(ts[2..]));
        var skip := ParseInNode(i + k, me, ts[0], ts[1]);
        EntriesThen(raw, ts, acc);
        if skip == PARSER_ERROR {
          return PARSER_ERROR;
        }
        ghost var c := EntryContent(raw, ts[0], ts[1]).value;
        GrownTwice(old(dt.nodes), before, dt.nodes, me, acc, c);
        ts, acc := ts[2..], Content(acc.props + c.props, c.kids + acc.kids);
        nested, k := nested - 2, k + skip;
      }
      NothingAfter(raw, acc);
      nodeCount := nodeCount + 1;
      ret := k;
      ObjectsOfNode(t);
    }

    lemma {:induction false} RootListed(i: nat, t: Tree)
      requires Stand(i, [t])
      ensures i < |tokens| && tokens[i].kind == t.kind && tokens[i].start == t.start && tokens[i].end == t.end
      ensures tokens[i].size == if t.Node? then |t.kids| else 0
    {
      assert PreAll([t]) == Pre(t) + PreAll([t][1..]);
      assert tokens[i] == tokens[i..i + |PreAll([t])|][0];
    }

    lemma {:induction false} FirstListed(i: nat, ts: seq<Tree>)
      requires Stand(i, ts) && ts != []
      ensures Stand(i, [ts[0]]) && Stand(i + |Pre(ts[0])|, ts[1..])
      ensures |PreAll(ts)| == |Pre(ts[0])| + |PreAll(ts[1..])|
    {
      var a, b := Pre(ts[0]), PreAll(ts[1..]);
      assert [ts[0]][1..] == [] && PreAll([ts[0]]) == a + [];
      var s := tokens[i..i + |PreAll(ts)|];
      assert tokens[i..i + |a|] == s[..|a|];
      assert tokens[i + |a|..i + |a| + |b|] == s[|a|..];
    }

    lemma {:induction false} TwoListed(i: nat, ts: seq<Tree>)
      requires Stand(i, ts) && |ts| >= 2
      ensures Stand(i, [ts[0], ts[1]]) && Stand(i + |Pre(ts[0])| + |Pre(ts[1])|, ts[2..])
      ensures |PreAll(ts)| == |Pre(ts[0])| + |Pre(ts[1])| + |PreAll(ts[2..])|
      ensures PreAll(ts) == Pre(ts[0]) + Pre(ts[1]) + PreAll(ts[2..])
    {
      hide Pre, PreAll;
      FirstListed(i, ts);
      FirstListed(i + |Pre(ts[0])|, ts[1..]);
      assert ts[1..][1..] == ts[2..];
      TwoTrees(ts);
      var n := |Pre(ts[0]) + Pre(ts[1])|;
      var s := tokens[i..i + |PreAll(ts)|];
      assert tokens[i..i + n] == s[..n];
    }

    /** A string or '@' key is a single token; its value comes right after it. */
    lemma {:induction false} PairListed(i: nat, key: Tree, value: Tree)
      requires Stand(i, [key, value]) && Sound(raw, [key])
      ensures i < |tokens| && tokens[i].kind == key.kind && tokens[i].start == key.start && tokens[i].end == key.end
      ensures key.kind == Str || key.kind == Children ==>
                && |Pre(key)| == 1 && Stand(i + 1, [value]) && i + 1 < |tokens|
                && tokens[i + 1].kind == value.kind
                && tokens[i + 1].start == value.start && tokens[i + 1].end == value.end
                && Objects(Pre(key) + Pre(value)) == Objects(Pre(value))
                && (value.Leaf? ==> |Pre(value)| == 1)
    {
      var ts := [key, value];
      FirstListed(i, ts);
      RootListed(i, key);
      assert ts[1..] == [value];
      if key.Leaf? {
        RootListed(i + 1, value);
        assert (Pre(key) + Pre(value))[1..] == Pre(value);
      }
    }

    /** The root token of a listed bracket, and the tokens of its children after it. */
    lemma {:induction false} Listed(i: nat, t: Tree)
      requires Stand(i, [t]) && t.Node?
      ensures i < |tokens| && tokens[i] == Token(t.kind, t.start, t.end, |t.kids|)
      ensures Stand(i + 1, t.kids) && |Pre(t)| == 1 + |PreAll(t.kids)|
      ensures forall k :: 0 <= k < |PreAll(t.kids)| ==> tokens[i + 1 + k] == PreAll(t.kids)[k]
    {
      assert [t][1..] == [];
      var s := PreAll([t]);
      assert PreAll([t]) == Pre(t) + PreAll([t][1..]);
      assert s == [Token(t.kind, t.start, t.end, |t.kids|)] + PreAll(t.kids);
      assert tokens[i] == tokens[i..i + |s|][0];
      assert tokens[i + 1..i + 1 + |PreAll(t.kids)|] == tokens[i..i + |s|][1..];
    }
  }

  lemma OverwrittenFront(s: seq<byte>, at: nat, w: seq<byte>)
    requires at + |w| <= |s|
    ensures W.Overwrite(s, at, w)[..at + |w|] == s[..at] + w
  {
  }

  lemma FirstSound(js: string, ts: seq<Tree>)
    requires Sound(js, ts) && Paired(ts) && ts != []
    ensures Sound(js, [ts[0]]) && Paired([ts[0]]) && Sound(js, ts[1..]) && Paired(ts[1..])
  {
    assert [ts[0]][1..] == [];
  }

  lemma GrownBounds(a: seq<B.Node>, b: seq<B.Node>, me: nat, c: Content)
    requires Grown(a, b, me, c)
    ensures B.WellFounded(a) && B.WellFounded(b) && me < |a| <= |b|
  {
  }

  /** Data arrays contain no objects. */
  lemma {:induction false} NoObjects(ts: seq<Tree>)
    requires forall k :: 0 <= k < |ts| ==> ts[k].Leaf? && ts[k].kind != Object
    ensures Objects(PreAll(ts)) == 0
    decreases |ts|
  {
    if ts != [] {
      assert Pre(ts[0])[1..] == [];
      ObjectsConcat(Pre(ts[0]), PreAll(ts[1..]));
      NoObjects(ts[1..]);
    }
  }

  lemma ObjectsOfNode(t: Tree)
    requires t.Node?
    ensures Objects(Pre(t)) == (if t.kind == Object then 1 else 0) + Objects(PreAll(t.kids))
  {
    assert Pre(t)[1..] == PreAll(t.kids);
  }

  /** What is known of an object when `acc` has been read and the rest is still to come. */
  ghost function Then(acc: Content, rest: Option<Content>): Option<Content> {
    match rest
    case None => None
    case Some(b) => Some(Content(acc.props + b.props, b.kids + acc.kids))
  }

  lemma NothingBefore(js: string, ts: seq<Tree>)
    requires Sound(js, ts) && Paired(ts) && |ts| % 2 == 0
    ensures ObjectContent(js, ts) == Then(Content([], []), ObjectContent(js, ts))
  {
    if ObjectContent(js, ts).Some? {
      var b := ObjectContent(js, ts).value;
      assert [] + b.props == b.props && b.kids + [] == b.kids;
    }
  }

  lemma NothingAfter(js: string, acc: Content)
    ensures Then(acc, ObjectContent(js, [])) == Some(acc)
  {
    assert acc.props + [] == acc.props && [] + acc.kids == acc.kids;
  }

  lemma EntriesThen(js: string, ts: seq<Tree>, acc: Content)
    requires Sound(js, ts) && Paired(ts) && |ts| % 2 == 0 && ts != []
    ensures Sound(js, [ts[0]]) && Sound(js, [ts[1]]) && Paired([ts[1]]) && Sound(js, ts[2..]) && Paired(ts[2..])
    ensures Then(acc, ObjectContent(js, ts)) ==
              match EntryContent(js, ts[0], ts[1])
              case None => None
              case Some(c) => Then(Content(acc.props + c.props, c.kids + acc.kids), ObjectContent(js, ts[2..]))
  {
    hide EntryContent;
    SoundParts(js, ts);
    if EntryContent(js, ts[0], ts[1]).Some? && ObjectContent(js, ts[2..]).Some? {
      var c, b := EntryContent(js, ts[0], ts[1]).value, ObjectContent(js, ts[2..]).value;
      assert acc.props + (c.props + b.props) == (acc.props + c.props) + b.props;
      assert (b.kids + c.kids) + acc.kids == b.kids + (c.kids + acc.kids);
    }
  }

  ghost function KidsThen(acc: seq<F.Tree>, rest: Option<seq<F.Tree>>): Option<seq<F.Tree>> {
    match rest
    case None => None
    case Some(ks) => Some(ks + acc)
  }

  lemma NoKidsBefore(js: string, ts: seq<Tree>)
    requires Sound(js, ts) && Paired(ts)
    ensures ChildNodes(js, ts) == KidsThen([], ChildNodes(js, ts))
  {
    if ChildNodes(js, ts).Some? {
      assert ChildNodes(js, ts).value + [] == ChildNodes(js, ts).value;
    }
  }

  lemma NoKidsAfter(js: string, acc: seq<F.Tree>)
    ensures KidsThen(acc, ChildNodes(js, [])) == Some(acc)
  {
    assert [] + acc == acc;
  }

  lemma NodesThen(js: string, ts: seq<Tree>, acc: seq<F.Tree>)
    requires Sound(js, ts) && Paired(ts) && ts != []
    ensures Sound(js, [ts[0]]) && Paired([ts[0]]) && Sound(js, ts[1..]) && Paired(ts[1..])
    ensures KidsThen(acc, ChildNodes(js, ts)) ==
              match NodeContent(js, ts[0])
              case None => None
              case Some(c) => KidsThen([F.Tree(c.props, c.kids)] + acc, ChildNodes(js, ts[1..]))
  {
    hide NodeContent;
    FirstSound(js, ts);
    if NodeContent(js, ts[0]).Some? && ChildNodes(js, ts[1..]).Some? {
      var c, ks := NodeContent(js, ts[0]).value, ChildNodes(js, ts[1..]).value;
      assert (ks + [F.Tree(c.props, c.kids)]) + acc == ks + ([F.Tree(c.props, c.kids)] + acc);
    }
  }

  lemma GrownKids(a: seq<B.Node>, b: seq<B.Node>, c: seq<B.Node>, me: nat, x: seq<F.Tree>, y: seq<F.Tree>)
    requires Grown(a, b, me, Content([], x)) && Grown(b, c, me, Content([], y))
    ensures Grown(a, c, me, Content([], y + x))
  {
    hide Grown;
    GrownTwice(a, b, c, me, Content([], x), Content([], y));
    var none: seq<F.Property> := [];
    assert none + none == none;
  }

  lemma TwoTrees(ts: seq<Tree>)
    requires |ts| >= 2
    ensures PreAll(ts) == Pre(ts[0]) + Pre(ts[1]) + PreAll(ts[2..])
    ensures PreAll([ts[0], ts[1]]) == Pre(ts[0]) + Pre(ts[1])
  {
    hide Pre, PreAll;
    var two := [ts[0], ts[1]];
    assert ts == two + ts[2..];
    PreAllConcat(two, ts[2..]);
    assert two == [ts[0]] + [ts[1]];
    PreAllConcat([ts[0]], [ts[1]]);
    OneTree(ts[0]);
    OneTree(ts[1]);
  }

  lemma OneTree(t: Tree)
    ensures PreAll([t]) == Pre(t)
  {
    PreAllSnoc([], t);
    assert [] + [t] == [t];
  }

  lemma NodeParts(js: string, t: Tree)
    requires Sound(js, [t]) && Paired([t])
    ensures if t.kind == Object
            then && t.Node? && |t.kids| % 2 == 0 && Sound(js, t.kids) && Paired(t.kids)
                 && NodeContent(js, t) == ObjectContent(js, t.kids)
            else NodeContent(js, t) == None
  {
  }

  lemma NothingListed()
    ensures PreAll([]) == [] && Objects([]) == 0
  {
  }

  lemma NoElements(js: string, ts: seq<Tree>)
    ensures ElementsData(js, ts[..0]) == []
  {
  }

  lemma ElementsStep(js: string, ts: seq<Tree>, k: nat)
    requires 0 < k <= |ts| && forall j :: 0 <= j < k ==> InText(js, ts[j]) && IsElement(ts[j])
    ensures ElementsData(js, ts[..k]) == ElementsData(js, ts[..k - 1]) + ElementData(js, ts[k - 1])
  {
    assert ts[..k][..k - 1] == ts[..k - 1];
  }

  lemma {:induction false} ElementsPrefix(js: string, ts: seq<Tree>, k: nat)
    requires 0 < k <= |ts| && forall j :: 0 <= j < |ts| ==> InText(js, ts[j]) && IsElement(ts[j])
    ensures ElementsData(js, ts[..k]) == ElementsData(js, ts[..k - 1]) + ElementData(js, ts[k - 1])
    ensures |ElementsData(js, ts[..k])| <= |ElementsData(js, ts)|
    decreases |ts|
  {
    assert ts[..k][..k - 1] == ts[..k - 1];
    if k == |ts| {
      assert ts[..k] == ts;
    } else {
      var init := ts[..|ts| - 1];
      ElementsPrefix(js, init, k);
      assert init[..k] == ts[..k];
    }
  }
}

/** parse_jsdt_device_tree: tokenize with a growing token array, then build the tree. */
module Jsdt {
  import opened Bytes
  import opened JsmnTree
  import opened JsDeviceTree
  import opened JsWalker
  import opened Wrappers
  import F = FlatTree
  import B = DeviceTreeBuilder
  import W = FlatWriter
  import J = Jsmn
  import P = JsmnParser

  const FIRST_CAPACITY := 40
  const MORE_CAPACITY := 100

  /** What the tokenizer makes of a text when it has room enough. */
  ghost function Document(raw: string): J.Result {
    J.Parse(raw, |raw|)
  }

  /** Parse again with a hundred tokens more for as long as they run out. The result is
      that of unlimited room. */
  method Tokenize(raw: string) returns (err: J.Outcome, tokens: array<Token>, n: nat)
    ensures err == Document(raw).outcome && err != J.NoMem
    ensures n == |Flat(Document(raw).nest)| <= tokens.Length
    ensures tokens[..n] == Flat(Document(raw).nest)
  {
    hide J.Lex, Flat;
    FlatNothing();
    J.EnoughRoom(raw, 0, |raw|, Nest([], []));
    var capacity := FIRST_CAPACITY;
    while true
      invariant capacity >= FIRST_CAPACITY
      decreases |raw| - capacity
    {
      tokens := new Token[capacity](_ => Token(Primitive, 0, 0, 0));
      var parser := new P.Parser();
      err := parser.Parse(raw, tokens, capacity);
      n := parser.toknext;
      if err != J.NoMem {
        if capacity <= |raw| {
          J.CapacityIndependent(raw, 0, capacity, |raw|, Nest([], []));
        } else {
          J.CapacityIndependent(raw, 0, |raw|, capacity, Nest([], []));
        }
        return;
      }
      if capacity >= |raw| {
        J.EnoughRoom(raw, 0, capacity, Nest([], []));
        assert false;
      }
      capacity := capacity + MORE_CAPACITY;
    }
  }

  lemma FlatNothing()
    ensures Flat(Nest([], [])) == []
  {
  }

  /** The walker assumes at least one token and objects of even size. */
  ghost predicate Walkable(raw: string) {
    Document(raw).outcome == J.Success ==>
      Document(raw).nest.top != [] && EvenObjects(Flat(Document(raw).nest))
  }

  /** The content of the document's first tree, if the document is one. */
  ghost function Meaning(raw: string): Option<Content>
    requires Walkable(raw)
  {
    if Document(raw).outcome != J.Success then None
    else
      DocumentSound(raw);
      NodeContent(raw, Document(raw).nest.top[0])
  }

  lemma DocumentSound(raw: string)
    requires Document(raw).outcome == J.Success && Walkable(raw)
    ensures var ts := Document(raw).nest.top;
            && Flat(Document(raw).nest) == PreAll(ts)
            && Sound(raw, ts) && Paired(ts) && Sound(raw, [ts[0]]) && Paired([ts[0]])
  {
    hide J.Parse;
    J.ParseIsForest(raw, |raw|);
    var ts := Document(raw).nest.top;
    NestedSound(raw, ts, 0, |raw|);
    PairedTokens(ts);
    FirstSound(raw, ts);
  }

  /** The device tree a document describes: the root's own name, then its content. */
  function Described(c: Content): F.Tree {
    F.Tree([B.NameProperty(B.ROOT_NAME)] + c.props, c.kids)
  }

  lemma RootDescribed(a: seq<B.Node>, b: seq<B.Node>, c: Content)
    requires a == [B.Node([B.NameProperty(B.ROOT_NAME)], [])] && Grown(a, b, 0, c)
    ensures B.TreeAt(b, 0) == Described(c)
  {
    assert b[0].kids[..|b[0].kids|] == b[0].kids;
  }

  /** parse_jsdt_device_tree: succeeds exactly on documents that mean something, and then
      leaves the tree they describe, with one node counted for every object of the first
      tree. */
  method ParseJsdt(raw: string) returns (ok: bool, dt: B.DeviceTree, nodes: nat)
    requires Walkable(raw)
    ensures fresh(dt) && dt.Valid()
    ensures ok <==> Meaning(raw).Some?
    ensures ok ==> B.TreeAt(dt.nodes, 0) == Described(Meaning(raw).value)
    ensures ok ==> nodes == Objects(Pre(Document(raw).nest.top[0]))
  {
    hide J.Parse, NodeContent, Grown, Objects, B.TreeAt, B.Counts;
    var err, tokens, n := Tokenize(raw);
    dt := new B.DeviceTree();
    ok, nodes := false, 0;
    if err == J.Success {
      DocumentSound(raw);
      ghost var ts := Document(raw).nest.top;
      var c := new Context(raw, tokens[..n], dt);
      ghost var first := dt.nodes;
      StandsFirst(c, ts);
      var ret := c.BuildNode(0, 0, ts[0]);
      if ret != PARSER_ERROR {
        RootDescribed(first, dt.nodes, Meaning(raw).value);
        ok, nodes := true, c.nodeCount;
      }
    }
  }

  lemma StandsFirst(c: Context, ts: seq<Tree>)
    requires c.tokens == PreAll(ts) && ts != []
    ensures c.Stand(0, [ts[0]])
  {
    assert c.tokens[0..0 + |PreAll(ts)|] == PreAll(ts);
    c.FirstListed(0, ts);
  }

  /** What reading a flattened document gives: its tree, exactly when the names fit. */
  ghost predicate ReadsAs(block: seq<byte>, t: F.Tree) {
    F.Small(t) ==> (F.ReadNode(block) == F.Read(t, []) <==> F.NamesFit(t))
  }

  /** From the text to the flat block in a buffer of the caller's, with room for all names. The
      buffer holds exactly the described tree, and the size returned is that of its block. */
  method JsdtIntoBuffer(raw: string, buf: array<byte>) returns (ok: bool, size: nat)
    requires Walkable(raw)
    requires Meaning(raw).Some? ==> W.Reach(Described(Meaning(raw).value)) <= buf.Length
    modifies buf
    ensures ok <==> Meaning(raw).Some?
    ensures ok ==> var t := Described(Meaning(raw).value);
                   && size == W.BlockSize(t) <= buf.Length
                   && buf[..] == W.PutTree(W.Overwrite(old(buf[..]), 0, F.Zeros(size)), 0, t)
                   && ReadsAs(buf[..size], t)
    ensures !ok ==> buf[..] == old(buf[..])
  {
    hide Meaning, Described, F.ReadNode, F.Block, W.PutTree, W.Reach, W.BlockSize, W.Overwrite, F.NamesFit, F.InSlots,
         F.Small;
    var dt, n;
    ok, dt, n := ParseJsdt(raw);
    size := 0;
    if ok {
      size := dt.FlattenInto(buf);
    }
  }

  /** From the text to the flat block in a buffer of the announced size. */
  method JsdtToBlock(raw: string) returns (ok: bool, block: seq<byte>)
    requires Walkable(raw)
    requires Meaning(raw).Some? ==> W.Reach(Described(Meaning(raw).value)) <= W.BlockSize(Described(Meaning(raw).value))
    ensures ok <==> Meaning(raw).Some?
    ensures ok ==> |block| == W.BlockSize(Described(Meaning(raw).value))
    ensures ok ==> ReadsAs(block, Described(Meaning(raw).value))
  {
    hide Meaning, Described, F.ReadNode, F.Block, W.PutTree, W.Reach, W.BlockSize, F.NamesFit, F.InSlots, F.Small;
    var dt, n;
    ok, dt, n := ParseJsdt(raw);
    block := [];
    if ok {
      var buf := dt.Flatten();
      block := buf[..];
    }
  }
}

/** DT__Initialize, DT__AddChild, DT__AddProperty and the flattener. Nodes live in a pool
    and refer to each other by index; new children go to the front of a node's list, new
    properties to the end. */
module DeviceTreeBuilder {
  import opened Bytes
  import opened FlatTree
  import opened FlatWriter
  import opened Wrappers

  datatype Node = Node(props: seq<Property>, kids: seq<nat>)

  // ----- The tree under a node

  /** The indices `ks` belong to nodes created after node `i`. */
  ghost predicate Later(nodes: seq<Node>, i: nat, ks: seq<nat>) {
    forall j :: 0 <= j < |ks| ==> i < ks[j] < |nodes|
  }

  /** Children are created after their parents. */
  ghost predicate WellFounded(nodes: seq<Node>) {
    forall i :: 0 <= i < |nodes| ==> Later(nodes, i, nodes[i].kids)
  }

  function TreeAt(nodes: seq<Node>, i: nat): Tree
    requires WellFounded(nodes) && i < |nodes|
    decreases |nodes| - i, 1, 0
  {
    Tree(nodes[i].props, TreesAt(nodes, i, nodes[i].kids))
  }

  function TreesAt(nodes: seq<Node>, i: nat, ks: seq<nat>): (ts: seq<Tree>)
    requires WellFounded(nodes) && i < |nodes| && Later(nodes, i, ks)
    ensures |ts| == |ks|
    decreases |nodes| - i, 0, |ks|
  {
    if ks == [] then [] else [TreeAt(nodes, ks[0])] + TreesAt(nodes, i, ks[1..])
  }

  /** How often node `p` occurs in the tree under node `i`. */
  function Occurs(nodes: seq<Node>, i: nat, p: nat): nat
    requires WellFounded(nodes) && i < |nodes|
    decreases |nodes| - i, 1, 0
  {
    (if i == p then 1 else 0) + OccursIn(nodes, i, nodes[i].kids, p)
  }

  function OccursIn(nodes: seq<Node>, i: nat, ks: seq<nat>, p: nat): nat
    requires WellFounded(nodes) && i < |nodes| && Later(nodes, i, ks)
    decreases |nodes| - i, 0, |ks|
  {
    if ks == [] then 0 else Occurs(nodes, ks[0], p) + OccursIn(nodes, i, ks[1..], p)
  }

  // ----- Changing one node

  /** The three counters of a tree. */
  function Counts(t: Tree): (nat, nat, nat) {
    (NodeCount(t), PropertyCount(t), ValueBytes(t))
  }

  function CountsAll(ts: seq<Tree>): (nat, nat, nat) {
    (NodeCountAll(ts), PropertyCountAll(ts), ValueBytesAll(ts))
  }

  function Plus(c: (nat, nat, nat), d: (nat, nat, nat)): (nat, nat, nat) {
    (c.0 + d.0, c.1 + d.1, c.2 + d.2)
  }

  function PropertyCost(x: Property): (nat, nat, nat) {
    (0, 1, RoundToLong(|x.value|))
  }

  /** The pool with one property more at the end of node `p`. */
  function WithProperty(a: seq<Node>, p: nat, x: Property): (b: seq<Node>)
    requires p < |a|
    ensures |b| == |a|
  {
    a[p := a[p].(props := a[p].props + [x])]
  }

  /** The pool with a new last node at the front of node `p`'s children. */
  function WithChild(a: seq<Node>, p: nat): (b: seq<Node>)
    requires p < |a|
    ensures |b| == |a| + 1
  {
    a[p := a[p].(kids := [|a|] + a[p].kids)] + [Node([], [])]
  }

  lemma WithPropertyWellFounded(a: seq<Node>, p: nat, x: Property)
    requires WellFounded(a) && p < |a|
    ensures WellFounded(WithProperty(a, p, x))
  {
    var b := WithProperty(a, p, x);
    forall i | 0 <= i < |b| ensures Later(b, i, b[i].kids) {
      assert Later(a, i, a[i].kids);
    }
  }

  lemma WithChildWellFounded(a: seq<Node>, p: nat)
    requires WellFounded(a) && p < |a|
    ensures WellFounded(WithChild(a, p))
  {
    var b := WithChild(a, p);
    forall i | 0 <= i < |b| ensures Later(b, i, b[i].kids) {
      if i < |a| {
        assert Later(a, i, a[i].kids);
      }
    }
  }

  /** A new property changes no occurrence; it shows once in the tree of every node that
      has `p` under it once, and nowhere else. */
  lemma {:induction false} PropertyEffect(a: seq<Node>, p: nat, x: Property, i: nat)
    requires WellFounded(a) && p < |a| && i < |a|
    requires WellFounded(WithProperty(a, p, x))
    ensures var b := WithProperty(a, p, x);
            && (forall q: nat :: Occurs(b, i, q) == Occurs(a, i, q))
            && (Occurs(a, i, p) == 0 ==> TreeAt(b, i) == TreeAt(a, i))
            && (Occurs(a, i, p) == 1 ==> Counts(TreeAt(b, i)) == Plus(Counts(TreeAt(a, i)), PropertyCost(x)))
    decreases |a| - i, 1, 0
  {
    var b := WithProperty(a, p, x);
    assert Later(b, i, a[i].kids);
    PropertyEffectIn(a, p, x, i, a[i].kids);
    if i == p {
      assert b[p].props[..|a[p].props|] == a[p].props;
    }
  }

  lemma {:induction false} PropertyEffectIn(a: seq<Node>, p: nat, x: Property, i: nat, ks: seq<nat>)
    requires WellFounded(a) && p < |a| && i < |a| && Later(a, i, ks)
    requires WellFounded(WithProperty(a, p, x)) && Later(WithProperty(a, p, x), i, ks)
    ensures var b := WithProperty(a, p, x);
            && (forall q: nat :: OccursIn(b, i, ks, q) == OccursIn(a, i, ks, q))
            && (OccursIn(a, i, ks, p) == 0 ==> TreesAt(b, i, ks) == TreesAt(a, i, ks))
            && (OccursIn(a, i, ks, p) == 1 ==>
                  CountsAll(TreesAt(b, i, ks)) == Plus(CountsAll(TreesAt(a, i, ks)), PropertyCost(x)))
    decreases |a| - i, 0, |ks|
  {
    if ks != [] {
      PropertyEffect(a, p, x, ks[0]);
      PropertyEffectIn(a, p, x, i, ks[1..]);
    }
  }

  /** A new child occurs exactly where its parent does. */
  lemma {:induction false} ChildEffect(a: seq<Node>, p: nat, i: nat)
    requires WellFounded(a) && p < |a| && i < |a|
    requires WellFounded(WithChild(a, p))
    ensures var b := WithChild(a, p);
            && (forall q: nat :: q != |a| ==> Occurs(b, i, q) == Occurs(a, i, q))
            && Occurs(b, i, |a|) == Occurs(a, i, p)
            && (Occurs(a, i, p) == 0 ==> TreeAt(b, i) == TreeAt(a, i))
            && (Occurs(a, i, p) == 1 ==> Counts(TreeAt(b, i)) == Plus(Counts(TreeAt(a, i)), (1, 0, 0)))
    decreases |a| - i, 1, 0
  {
    hide Counts, CountsAll, Values;
    var b := WithChild(a, p);
    assert Later(b, i, a[i].kids);
    ChildEffectIn(a, p, i, a[i].kids);
    CountsOfNode(TreeAt(a, i));
    CountsOfNode(TreeAt(b, i));
    if i == p {
      CountsOfLeafFirst(TreesAt(a, p, a[p].kids));
      var ks := [|a|] + a[p].kids;
      assert b[p].kids == ks && ks[1..] == a[p].kids;
      NewLeaf(b, |a|);
      forall q: nat ensures OccursIn(b, p, ks, q) == (if q == |a| then 1 else 0) + OccursIn(b, p, a[p].kids, q) {
      }
      assert TreesAt(b, p, ks) == [Tree([], [])] + TreesAt(b, p, a[p].kids);
    }
  }

  lemma CountsOfNode(t: Tree)
    ensures Counts(t) == Plus((1, |t.props|, Values(t.props)), CountsAll(t.kids))
  {
  }

  lemma CountsOfLeafFirst(ts: seq<Tree>)
    ensures CountsAll([Tree([], [])] + ts) == Plus((1, 0, 0), CountsAll(ts))
  {
    assert ([Tree([], [])] + ts)[1..] == ts;
    assert Counts(Tree([], [])) == (1, 0, 0);
  }

  lemma NewLeaf(b: seq<Node>, n: nat)
    requires WellFounded(b) && n < |b| && b[n] == Node([], [])
    ensures TreeAt(b, n) == Tree([], [])
    ensures forall q: nat :: Occurs(b, n, q) == if q == n then 1 else 0
  {
  }

  lemma {:induction false} ChildEffectIn(a: seq<Node>, p: nat, i: nat, ks: seq<nat>)
    requires WellFounded(a) && p < |a| && i < |a| && Later(a, i, ks)
    requires WellFounded(WithChild(a, p)) && Later(WithChild(a, p), i, ks)
    ensures var b := WithChild(a, p);
            && (forall q: nat :: q != |a| ==> OccursIn(b, i, ks, q) == OccursIn(a, i, ks, q))
            && OccursIn(b, i, ks, |a|) == OccursIn(a, i, ks, p)
            && (OccursIn(a, i, ks, p) == 0 ==> TreesAt(b, i, ks) == TreesAt(a, i, ks))
            && (OccursIn(a, i, ks, p) == 1 ==>
                  CountsAll(TreesAt(b, i, ks)) == Plus(CountsAll(TreesAt(a, i, ks)), (1, 0, 0)))
    decreases |a| - i, 0, |ks|
  {
    if ks != [] {
      ChildEffect(a, p, ks[0]);
      ChildEffectIn(a, p, i, ks[1..]);
    }
  }

  // ----- The pool and its counters

  /** One tree: every node of the pool is under the root exactly once. */
  ghost predicate OneTree(nodes: seq<Node>) {
    && WellFounded(nodes) && |nodes| > 0
    && forall q :: 0 <= q < |nodes| ==> Occurs(nodes, 0, q) == 1
  }

  const NAME: seq<byte> := [110, 97, 109, 101]
  const ROOT_NAME: seq<byte> := [47]

  /** The property DT__AddChild gives a named node: the name with its terminator. */
  function NameProperty(name: seq<byte>): Property {
    Property(NAME, name + [0])
  }

  class DeviceTree {
    var nodes: seq<Node>
    var numNodes: nat
    var numProperties: nat
    var totalPropertySize: nat

    /** The counters are those of the tree under the root, whatever was added so far. */
    ghost predicate Valid()
      reads this
    {
      && OneTree(nodes)
      && (numNodes, numProperties, totalPropertySize) == Counts(TreeAt(nodes, 0))
    }

    /** DT__Initialize: a root named "/". */
    constructor ()
      ensures Valid()
      ensures nodes == [Node([NameProperty(ROOT_NAME)], [])]
    {
      nodes, numNodes, numProperties, totalPropertySize := [Node([], [])], 1, 0, 0;
      new;
      NewLeaf([Node([], [])], 0);
      assert Counts(Tree([], [])) == (1, 0, 0);
      AddProperty(0, NAME, ROOT_NAME + [0]);
    }

    /** DT__AddProperty: at the end of the node's list. */
    method AddProperty(node: nat, name: seq<byte>, value: seq<byte>)
      requires Valid() && node < |nodes|
      modifies this
      ensures Valid() && nodes == WithProperty(old(nodes), node, Property(name, value))
    {
      hide Counts, TreeAt, Occurs;
      ghost var x := Property(name, value);
      WithPropertyWellFounded(nodes, node, x);
      PropertyEffect(nodes, node, x, 0);
      nodes := nodes[node := nodes[node].(props := nodes[node].props + [Property(name, value)])];
      numProperties := numProperties + 1;
      totalPropertySize := totalPropertySize + RoundToLong(|value|);
    }

    /** DT__AddChild with a parent: at the front of the parent's list. */
    method AddChild(parent: nat, name: Option<seq<byte>>) returns (node: nat)
      requires Valid() && parent < |nodes|
      modifies this
      ensures Valid() && node == old(|nodes|)
      ensures nodes == match name
                       case None => WithChild(old(nodes), parent)
                       case Some(n) => WithProperty(WithChild(old(nodes), parent), node, NameProperty(n))
    {
      hide Counts, TreeAt, Occurs;
      WithChildWellFounded(nodes, parent);
      ChildEffect(nodes, parent, 0);
      node := |nodes|;
      nodes := nodes[parent := nodes[parent].(kids := [node] + nodes[parent].kids)] + [Node([], [])];
      numNodes := numNodes + 1;
      if name.Some? {
        AddProperty(node, NAME, name.value + [0]);
      }
    }

    /** DT__FlattenDeviceTree into the caller's buffer. The announced size is that of the
        tree's block. The buffer holds exactly what `PutTree` writes into it, once as much as
        announced has been cleared: the block, when every name stays in its slot. Something is
        written behind the announced size exactly when the tree reaches further. */
    method FlattenInto(buf: array<byte>) returns (size: nat)
      requires Valid() && Reach(TreeAt(nodes, 0)) <= buf.Length
      modifies buf
      ensures size == TotalSize(numNodes, numProperties, totalPropertySize) == BlockSize(TreeAt(nodes, 0)) <= buf.Length
      ensures buf[..] == PutTree(Overwrite(old(buf[..]), 0, Zeros(size)), 0, TreeAt(nodes, 0))
      ensures InSlots(TreeAt(nodes, 0)) ==> buf[..size] == Block(TreeAt(nodes, 0))
      ensures Small(TreeAt(nodes, 0)) ==>
                (ReadNode(buf[..size]) == Read(TreeAt(nodes, 0), []) <==> NamesFit(TreeAt(nodes, 0)))
      ensures (forall k :: size <= k < buf.Length ==> old(buf[k]) != 0) ==>
                ((exists k :: size <= k < buf.Length && buf[k] != old(buf[k])) <==> Reach(TreeAt(nodes, 0)) > size)
    {
      hide PutTree, Block, InSlots, NodeCount, PropertyCount, ValueBytes, Reach, Overwrite, NamesFit, Small, ReadNode;
      ghost var t := TreeAt(nodes, 0);
      ReachBound(t);
      size := numNodes * NODE_SIZE + numProperties * PROPERTY_SIZE + totalPropertySize;
      Clear(buf, size);
      ghost var s := buf[..];
      var end := FlattenNodes(nodes, buf, 0, 0);
      assert buf[..size] == buf[..][..size];
      Flattened(s, t);
      if forall k :: size <= k < buf.Length ==> old(buf[k]) != 0 {
        PassesExactly(s, t);
      }
    }

    /** DT__FlattenDeviceTree into a buffer of the announced size. */
    method Flatten() returns (buf: array<byte>)
      requires Valid() && Reach(TreeAt(nodes, 0)) <= BlockSize(TreeAt(nodes, 0))
      ensures fresh(buf) && buf.Length == TotalSize(numNodes, numProperties, totalPropertySize)
      ensures buf.Length == BlockSize(TreeAt(nodes, 0))
      ensures buf[..] == PutTree(Zeros(buf.Length), 0, TreeAt(nodes, 0))
      ensures InSlots(TreeAt(nodes, 0)) ==> buf[..] == Block(TreeAt(nodes, 0))
      ensures Small(TreeAt(nodes, 0)) ==>
                (ReadNode(buf[..]) == Read(TreeAt(nodes, 0), []) <==> NamesFit(TreeAt(nodes, 0)))
    {
      hide PutTree, Block, InSlots, NodeCount, PropertyCount, ValueBytes, Reach, NamesFit, Small, ReadNode;
      buf := new byte[numNodes * NODE_SIZE + numProperties * PROPERTY_SIZE + totalPropertySize];
      ghost var s := buf[..];
      var size := FlattenInto(buf);
      assert Overwrite(s, 0, Zeros(size)) == Zeros(size);
      assert buf[..size] == buf[..];
    }
  }

  /** What a flattened tree is worth to a reader. */
  lemma Flattened(s: seq<byte>, t: Tree)
    requires Reach(t) <= |s| && BlockSize(t) <= |s| && Blank(s, 0, BlockSize(t))
    ensures var r := PutTree(s, 0, t)[..BlockSize(t)];
            && (InSlots(t) ==> r == Block(t))
            && (Small(t) ==> (ReadNode(r) == Read(t, []) <==> NamesFit(t)))
  {
    hide PutTree, Block, InSlots, Reach, NamesFit, Small, ReadNode, BlockSize;
    if InSlots(t) {
      PutTreeBlock(s, 0, t);
    }
    if Small(t) {
      ReadBackExactly(s, t);
    }
  }

  // ----- Two trees with long names

  /** A root with a second property, whose name is `n` times the letter a, and no value. */
  method LongName(n: nat) returns (dt: DeviceTree)
    ensures fresh(dt) && dt.Valid()
    ensures TreeAt(dt.nodes, 0) == Tree([NameProperty(ROOT_NAME), Property(seq(n, _ => 97), [])], [])
  {
    dt := new DeviceTree();
    dt.AddProperty(0, seq(n, _ => 97), []);
  }

  lemma LongNameSizes(n: nat)
    ensures var t := Tree([NameProperty(ROOT_NAME), Property(seq(n, _ => 97), [])], []);
            BlockSize(t) == 84 && Reach(t) == Max(84, 49 + n)
  {
    var p, q := NameProperty(ROOT_NAME), Property(seq(n, _ => 97), []);
    var ps := [p, q];
    assert PropertySize(p) == 40 && PropertyReach(p) == 40;
    assert PropertySize(q) == 36 && PropertyReach(q) == Max(36, n + 1);
    hide PropertySize, PropertyReach, BlockSize, BlockSizeAll;
    assert ps[1..] == [q];
    PropertiesSizeFirst(ps);
    OneProperty(q);
    NoTrees([], 0);
    BlockSizeParts(Tree(ps, []));
  }

  lemma LongNamePlace(n: nat)
    ensures var t := Tree([NameProperty(ROOT_NAME), Property(seq(n, _ => 97), [])], []);
            Small(t) && (n >= NAME_LENGTH ==> !NamesFit(t)) && (n < PROPERTY_SIZE ==> InSlots(t))
  {
    var p, q := NameProperty(ROOT_NAME), Property(seq(n, _ => 97), []);
    var ps := [p, q];
    assert ps[1..] == [q] && [q][1..] == [] && ps[1] in ps;
  }

  /** With a name of 40 characters the flattener writes five bytes more than it announces, the
      last of them the terminator; what follows keeps its value. */
  method LongNameOverruns() returns (dt: DeviceTree, buf: array<byte>, size: nat)
    ensures dt.Valid() && size == TotalSize(dt.numNodes, dt.numProperties, dt.totalPropertySize)
    ensures Reach(TreeAt(dt.nodes, 0)) == size + 5 && buf.Length == size + 10
    ensures buf[size + 4] == 0 && forall k :: size + 5 <= k < buf.Length ==> buf[k] == 0xFF
  {
    hide PutTree, Reach, BlockSize, ReadNode, Block;
    LongNameSizes(40);
    LongNamePlace(40);
    dt := LongName(40);
    buf := new byte[94](_ => 0xFF);
    ghost var s := buf[..];
    size := dt.FlattenInto(buf);
    ghost var t, u := TreeAt(dt.nodes, 0), Overwrite(s, 0, Zeros(size));
    PutTreeEnd(u, 0, t);
    PutTreeWithin(u, 0, t);
    assert forall k :: 0 <= k < buf.Length ==> buf[k] == PutTree(u, 0, t)[k];
  }

  /** A name of 32 characters stays in the block, but the block does not read back. */
  method LongNameLost() returns (dt: DeviceTree, buf: array<byte>)
    ensures dt.Valid() && buf[..] == Block(TreeAt(dt.nodes, 0))
    ensures ReadNode(buf[..]) != Read(TreeAt(dt.nodes, 0), [])
  {
    hide PutTree, Reach, BlockSize, ReadNode, Block;
    LongNameSizes(32);
    LongNamePlace(32);
    dt := LongName(32);
    buf := dt.Flatten();
  }

  // ----- The flattener

  method CopyBytes(buf: array<byte>, at: nat, s: seq<byte>)
    requires at + |s| <= buf.Length
    modifies buf
    ensures buf[..] == Overwrite(old(buf[..]), at, s)
  {
    for k := 0 to |s|
      invariant forall j :: 0 <= j < buf.Length ==> buf[j] == if at <= j < at + k then s[j - at] else old(buf[j])
    {
      buf[at + k] := s[k];
    }
  }

  /** bzero */
  method Clear(buf: array<byte>, n: nat)
    requires n <= buf.Length
    modifies buf
    ensures buf[..] == Overwrite(old(buf[..]), 0, Zeros(n)) && Blank(buf[..], 0, n)
  {
    for k := 0 to n
      invariant forall j :: 0 <= j < buf.Length ==> buf[j] == if j < k then 0 else old(buf[j])
    {
      buf[k] := 0;
    }
  }

  /** strcpy of the name, then the length, then the value, each over what stands there. */
  method WriteProperty(buf: array<byte>, at: nat, p: Property) returns (end: nat)
    requires at + PropertyReach(p) <= buf.Length
    modifies buf
    ensures end == at + PropertySize(p) && buf[..] == PutProperty(old(buf[..]), at, p)
  {
    hide Le, RoundToLong, Overwrite;
    CopyBytes(buf, at, p.name + [0]);
    CopyBytes(buf, at + NAME_LENGTH, Le(|p.value|, 4));
    CopyBytes(buf, at + PROPERTY_SIZE, p.value);
    end := at + PROPERTY_SIZE + RoundToLong(|p.value|);
  }

  method WriteProperties(buf: array<byte>, at: nat, ps: seq<Property>) returns (end: nat, count: nat)
    requires at + PropertiesReach(ps) <= buf.Length
    modifies buf
    ensures end == at + PropertiesSize(ps) && count == |ps|
    ensures buf[..] == PutProperties(old(buf[..]), at, ps)
  {
    hide PutProperties, PutProperty, PropertiesSize, PropertiesReach, PropertyReach, PropertySize;
    end, count := at, 0;
    ghost var rest := ps;
    while count < |ps|
      invariant 0 <= count <= |ps| && rest == ps[count..]
      invariant end + PropertiesReach(rest) <= buf.Length && end + PropertiesSize(rest) == at + PropertiesSize(ps)
      invariant PutProperties(buf[..], end, rest) == PutProperties(old(buf[..]), at, ps)
    {
      PropertiesStep(buf[..], end, rest);
      end := WriteProperty(buf, end, ps[count]);
      rest := rest[1..];
      count := count + 1;
    }
    NoProperties(buf[..], end);
  }

  lemma {:induction false} TreesAtElements(nodes: seq<Node>, i: nat, ks: seq<nat>)
    requires WellFounded(nodes) && i < |nodes| && Later(nodes, i, ks)
    ensures forall j :: 0 <= j < |ks| ==> TreesAt(nodes, i, ks)[j] == TreeAt(nodes, ks[j])
    decreases |ks|
  {
    hide TreeAt;
    if ks != [] {
      TreesAtElements(nodes, i, ks[1..]);
    }
  }

  /** FlattenNodes: writes the tree under node `i` and advances by the size of its block. The
      counts go in front once they are known. */
  method FlattenNodes(nodes: seq<Node>, buf: array<byte>, at: nat, i: nat) returns (end: nat)
    requires WellFounded(nodes) && i < |nodes| && at + Reach(TreeAt(nodes, i)) <= buf.Length
    modifies buf
    ensures end == at + BlockSize(TreeAt(nodes, i))
    ensures buf[..] == PutTree(old(buf[..]), at, TreeAt(nodes, i))
    decreases |nodes| - i
  {
    hide Le, TreesAt, PutProperties, PutTrees, PropertiesSize, PropertiesReach, BlockSize, BlockSizeAll, ReachAll,
         Overwrite;
    BlockSizeParts(TreeAt(nodes, i));
    var mid, nProperties := WriteProperties(buf, at + NODE_SIZE, nodes[i].props);
    var nChildren;
    end, nChildren := FlattenChildren(nodes, buf, mid, i);
    CopyBytes(buf, at, Le(nProperties, 4) + Le(nChildren, 4));
  }

  method FlattenChildren(nodes: seq<Node>, buf: array<byte>, at: nat, i: nat) returns (end: nat, count: nat)
    requires WellFounded(nodes) && i < |nodes| && at + ReachAll(TreeAt(nodes, i).kids) <= buf.Length
    modifies buf
    ensures end == at + BlockSizeAll(TreeAt(nodes, i).kids) && count == |TreeAt(nodes, i).kids|
    ensures buf[..] == PutTrees(old(buf[..]), at, TreeAt(nodes, i).kids)
    decreases |nodes| - i, 0
  {
    hide PutTree, PutTrees, BlockSize, BlockSizeAll, Reach, ReachAll;
    var ks := nodes[i].kids;
    ghost var ts := TreesAt(nodes, i, ks);
    assert Later(nodes, i, ks);
    TreesAtElements(nodes, i, ks);
    end, count := at, 0;
    ghost var rest := ts;
    while count < |ks|
      invariant 0 <= count <= |ks| && rest == ts[count..]
      invariant end + ReachAll(rest) <= buf.Length && end + BlockSizeAll(rest) == at + BlockSizeAll(ts)
      invariant PutTrees(buf[..], end, rest) == PutTrees(old(buf[..]), at, ts)
    {
      TreesStep(buf[..], end, rest);
      end := FlattenNodes(nodes, buf, end, ks[count]);
      rest := rest[1..];
      count := count + 1;
    }
    NoTrees(buf[..], end);
  }
}

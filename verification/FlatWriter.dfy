/** What the flattener does to a buffer, for names of any length: the bytes it writes, how far
    they reach, and when they are the block of the tree. */
module FlatWriter {
  import opened Bytes
  import opened FlatTree

  // ----- What the counters count

  function NodeCount(t: Tree): nat
    decreases t, 1
  {
    1 + NodeCountAll(t.kids)
  }

  function NodeCountAll(ts: seq<Tree>): nat
    decreases ts, 0
  {
    if ts == [] then 0 else NodeCount(ts[0]) + NodeCountAll(ts[1..])
  }

  function PropertyCount(t: Tree): nat
    decreases t, 1
  {
    |t.props| + PropertyCountAll(t.kids)
  }

  function PropertyCountAll(ts: seq<Tree>): nat
    decreases ts, 0
  {
    if ts == [] then 0 else PropertyCount(ts[0]) + PropertyCountAll(ts[1..])
  }

  function Values(ps: seq<Property>): nat {
    if ps == [] then 0 else Values(ps[..|ps| - 1]) + RoundToLong(|ps[|ps| - 1].value|)
  }

  function ValueBytes(t: Tree): nat
    decreases t, 1
  {
    Values(t.props) + ValueBytesAll(t.kids)
  }

  function ValueBytesAll(ts: seq<Tree>): nat
    decreases ts, 0
  {
    if ts == [] then 0 else ValueBytes(ts[0]) + ValueBytesAll(ts[1..])
  }

  /** Bytes of the flat block, from the three counters. */
  function TotalSize(nodes: nat, properties: nat, values: nat): nat {
    nodes * NODE_SIZE + properties * PROPERTY_SIZE + values
  }

  function BlockSize(t: Tree): nat {
    TotalSize(NodeCount(t), PropertyCount(t), ValueBytes(t))
  }

  function PropertiesSize(ps: seq<Property>): nat {
    |ps| * PROPERTY_SIZE + Values(ps)
  }

  function BlockSizeAll(ts: seq<Tree>): nat {
    TotalSize(NodeCountAll(ts), PropertyCountAll(ts), ValueBytesAll(ts))
  }

  /** A node's share of the counters, and its subtrees'. */
  lemma BlockSizeParts(t: Tree)
    ensures BlockSize(t) == NODE_SIZE + PropertiesSize(t.props) + BlockSizeAll(t.kids)
  {
  }

  lemma BlockSizeFirst(ts: seq<Tree>)
    requires ts != []
    ensures BlockSizeAll(ts) == BlockSize(ts[0]) + BlockSizeAll(ts[1..])
  {
  }

  lemma {:induction false} PropertiesSizeFirst(ps: seq<Property>)
    requires ps != []
    ensures PropertiesSize(ps) == PropertySize(ps[0]) + PropertiesSize(ps[1..])
    decreases |ps|
  {
    if |ps| == 1 {
      assert ps[1..] == [] && ps[..0] == [];
    } else {
      var init := ps[..|ps| - 1];
      PropertiesSizeFirst(init);
      assert ps[1..][..|ps| - 2] == init[1..];
    }
  }

  lemma {:induction false} PropertiesLength(ps: seq<Property>)
    ensures |PropertiesBytes(ps)| == PropertiesSize(ps)
  {
    if ps != [] {
      PropertiesSizeFirst(ps);
      PropertiesLength(ps[1..]);
    }
  }

  /** The flat block has exactly the size that the counters of its tree announce. */
  lemma {:induction false} BlockLength(t: Tree)
    ensures |Block(t)| == BlockSize(t)
    decreases t, 1
  {
    PropertiesLength(t.props);
    BlockAllLength(t.kids);
  }

  lemma {:induction false} BlockAllLength(ts: seq<Tree>)
    ensures |BlockAll(ts)| == BlockSizeAll(ts)
    decreases ts, 0
  {
    if ts != [] {
      BlockLength(ts[0]);
      BlockAllLength(ts[1..]);
    }
  }

  // ----- How far the flattener writes

  function Max(a: nat, b: nat): nat {
    if a < b then b else a
  }

  /** The end of the furthest byte written for a property: its own end, or that of its name
      with the terminator. */
  function PropertyReach(p: Property): nat {
    Max(PropertySize(p), |p.name| + 1)
  }

  function PropertiesReach(ps: seq<Property>): nat {
    if ps == [] then 0 else Max(PropertyReach(ps[0]), PropertySize(ps[0]) + PropertiesReach(ps[1..]))
  }

  function Reach(t: Tree): nat
    decreases t, 1
  {
    NODE_SIZE + Max(PropertiesReach(t.props), PropertiesSize(t.props) + ReachAll(t.kids))
  }

  function ReachAll(ts: seq<Tree>): nat
    decreases ts, 0
  {
    if ts == [] then 0 else Max(Reach(ts[0]), BlockSize(ts[0]) + ReachAll(ts[1..]))
  }

  lemma {:induction false} PropertiesReachBound(ps: seq<Property>)
    ensures PropertiesReach(ps) >= PropertiesSize(ps)
    ensures PropertiesInSlots(ps) ==> PropertiesReach(ps) == PropertiesSize(ps)
  {
    if ps != [] {
      PropertiesSizeFirst(ps);
      PropertiesReachBound(ps[1..]);
    }
  }

  /** The flattener reaches the end of the block, and no further when every name stays in its
      slot. */
  lemma {:induction false} ReachBound(t: Tree)
    ensures Reach(t) >= BlockSize(t)
    ensures InSlots(t) ==> Reach(t) == BlockSize(t)
    decreases t, 1
  {
    BlockSizeParts(t);
    PropertiesReachBound(t.props);
    ReachAllBound(t.kids);
  }

  lemma {:induction false} ReachAllBound(ts: seq<Tree>)
    ensures ReachAll(ts) >= BlockSizeAll(ts)
    ensures InSlotsAll(ts) ==> ReachAll(ts) == BlockSizeAll(ts)
    decreases ts, 0
  {
    if ts != [] {
      BlockSizeFirst(ts);
      ReachBound(ts[0]);
      ReachAllBound(ts[1..]);
    }
  }

  // ----- What it writes

  /** The bytes `w` written over `s`. */
  function Overwrite(s: seq<byte>, at: nat, w: seq<byte>): (r: seq<byte>)
    requires at + |w| <= |s|
    ensures |r| == |s|
    ensures forall k :: 0 <= k < |s| ==> r[k] == if at <= k < at + |w| then w[k - at] else s[k]
  {
    s[..at] + w + s[at + |w|..]
  }

  /** The name with its terminator, then the length, then the value. */
  function PutProperty(s: seq<byte>, at: nat, p: Property): (r: seq<byte>)
    requires at + PropertyReach(p) <= |s|
    ensures |r| == |s|
  {
    var named := Overwrite(s, at, p.name + [0]);
    Overwrite(Overwrite(named, at + NAME_LENGTH, Le(|p.value|, 4)), at + PROPERTY_SIZE, p.value)
  }

  function PutProperties(s: seq<byte>, at: nat, ps: seq<Property>): (r: seq<byte>)
    requires at + PropertiesReach(ps) <= |s|
    ensures |r| == |s|
    decreases |ps|
  {
    if ps == [] then s else PutProperties(PutProperty(s, at, ps[0]), at + PropertySize(ps[0]), ps[1..])
  }

  function Counters(t: Tree): (s: seq<byte>)
    ensures |s| == NODE_SIZE
  {
    Le(|t.props|, 4) + Le(|t.kids|, 4)
  }

  /** Properties, children, and in front of them the counts. */
  function PutTree(s: seq<byte>, at: nat, t: Tree): (r: seq<byte>)
    requires at + Reach(t) <= |s|
    ensures |r| == |s|
    decreases t, 1
  {
    var described := PutProperties(s, at + NODE_SIZE, t.props);
    Overwrite(PutTrees(described, at + NODE_SIZE + PropertiesSize(t.props), t.kids), at, Counters(t))
  }

  function PutTrees(s: seq<byte>, at: nat, ts: seq<Tree>): (r: seq<byte>)
    requires at + ReachAll(ts) <= |s|
    ensures |r| == |s|
    decreases ts, 0
  {
    if ts == [] then s else PutTrees(PutTree(s, at, ts[0]), at + BlockSize(ts[0]), ts[1..])
  }

  lemma NoProperties(s: seq<byte>, at: nat)
    requires at <= |s|
    ensures PropertiesSize([]) == PropertiesReach([]) == 0 && PutProperties(s, at, []) == s
    ensures Within(s, s, at, at) && EndsInZero(s, at, at)
  {
  }

  lemma NoTrees(s: seq<byte>, at: nat)
    requires at <= |s|
    ensures BlockSizeAll([]) == ReachAll([]) == 0 && PutTrees(s, at, []) == s
    ensures Within(s, s, at, at) && EndsInZero(s, at, at)
  {
  }

  /** The first property, and what is left for the others. */
  lemma PropertiesStep(s: seq<byte>, at: nat, ps: seq<Property>)
    requires ps != [] && at + PropertiesReach(ps) <= |s|
    ensures PropertiesSize(ps) == PropertySize(ps[0]) + PropertiesSize(ps[1..])
    ensures PropertiesReach(ps) == Max(PropertyReach(ps[0]), PropertySize(ps[0]) + PropertiesReach(ps[1..]))
    ensures PropertiesReach(ps[1..]) >= PropertiesSize(ps[1..])
    ensures PutProperties(s, at, ps) == PutProperties(PutProperty(s, at, ps[0]), at + PropertySize(ps[0]), ps[1..])
  {
    hide PropertySize, PropertyReach, PutProperty, PropertiesSize;
    PropertiesSizeFirst(ps);
    PropertiesReachBound(ps[1..]);
  }

  lemma TreesStep(s: seq<byte>, at: nat, ts: seq<Tree>)
    requires ts != [] && at + ReachAll(ts) <= |s|
    ensures BlockSizeAll(ts) == BlockSize(ts[0]) + BlockSizeAll(ts[1..])
    ensures ReachAll(ts) == Max(Reach(ts[0]), BlockSize(ts[0]) + ReachAll(ts[1..]))
    ensures ReachAll(ts[1..]) >= BlockSizeAll(ts[1..])
    ensures PutTrees(s, at, ts) == PutTrees(PutTree(s, at, ts[0]), at + BlockSize(ts[0]), ts[1..])
  {
    hide BlockSize, Reach, PutTree, BlockSizeAll;
    BlockSizeFirst(ts);
    ReachAllBound(ts[1..]);
  }

  // ----- Nothing else is written

  /** `r` differs from `s` between `a` and `b` only. */
  ghost predicate Within(s: seq<byte>, r: seq<byte>, a: nat, b: nat) {
    |r| == |s| && forall k :: 0 <= k < |s| && !(a <= k < b) ==> r[k] == s[k]
  }

  lemma WithinBoth(s: seq<byte>, u: seq<byte>, r: seq<byte>, a: nat, b: nat, c: nat, d: nat, lo: nat, hi: nat)
    requires Within(s, u, a, b) && Within(u, r, c, d) && lo <= a && lo <= c && b <= hi && d <= hi
    ensures Within(s, r, lo, hi)
  {
  }

  lemma PutPropertyWithin(s: seq<byte>, at: nat, p: Property)
    requires at + PropertyReach(p) <= |s|
    ensures Within(s, PutProperty(s, at, p), at, at + PropertyReach(p))
  {
    hide Le;
  }

  lemma OneProperty(p: Property)
    ensures PropertiesSize([p]) == PropertySize(p) && PropertiesReach([p]) == PropertyReach(p)
  {
    hide PropertySize;
    assert [p][1..] == [];
    PropertiesSizeFirst([p]);
  }

  lemma {:induction false} PutPropertiesWithin(s: seq<byte>, at: nat, ps: seq<Property>)
    requires at + PropertiesReach(ps) <= |s|
    ensures Within(s, PutProperties(s, at, ps), at, at + PropertiesReach(ps))
    decreases |ps|
  {
    hide PutProperty, PutProperties, PropertyReach, PropertySize, PropertiesReach, PropertiesSize, Within;
    if ps == [] {
      NoProperties(s, at);
    } else {
      PropertiesStep(s, at, ps);
      var u, next := PutProperty(s, at, ps[0]), at + PropertySize(ps[0]);
      PutPropertyWithin(s, at, ps[0]);
      PutPropertiesWithin(u, next, ps[1..]);
      WithinBoth(s, u, PutProperties(s, at, ps), at, at + PropertyReach(ps[0]), next, next + PropertiesReach(ps[1..]),
                 at, at + PropertiesReach(ps));
    }
  }

  lemma {:induction false} PutTreeWithin(s: seq<byte>, at: nat, t: Tree)
    requires at + Reach(t) <= |s|
    ensures Within(s, PutTree(s, at, t), at, at + Reach(t))
    decreases t, 1
  {
    hide PutProperties, PutTrees, Counters, PropertiesReach, ReachAll, PropertiesSize;
    var props := at + NODE_SIZE;
    var kids, end := props + PropertiesSize(t.props), at + Reach(t);
    var u := PutProperties(s, props, t.props);
    PutPropertiesWithin(s, props, t.props);
    PutTreesWithin(u, kids, t.kids);
    WithinBoth(s, u, PutTrees(u, kids, t.kids), props, props + PropertiesReach(t.props),
               kids, kids + ReachAll(t.kids), at, end);
  }

  lemma {:induction false} PutTreesWithin(s: seq<byte>, at: nat, ts: seq<Tree>)
    requires at + ReachAll(ts) <= |s|
    ensures Within(s, PutTrees(s, at, ts), at, at + ReachAll(ts))
    decreases ts, 0
  {
    hide PutTree, PutTrees, Reach, ReachAll, BlockSize, BlockSizeAll, Within;
    if ts == [] {
      NoTrees(s, at);
    } else {
      TreesStep(s, at, ts);
      var u, next := PutTree(s, at, ts[0]), at + BlockSize(ts[0]);
      PutTreeWithin(s, at, ts[0]);
      PutTreesWithin(u, next, ts[1..]);
      WithinBoth(s, u, PutTrees(s, at, ts), at, at + Reach(ts[0]), next, next + ReachAll(ts[1..]),
                 at, at + ReachAll(ts));
    }
  }

  // ----- The last byte of a name that passes the end is written

  /** Of the parts `a` and then `b`, what reaches furthest beyond `size` ends in a zero. */
  ghost predicate EndsInZero(r: seq<byte>, size: nat, reach: nat) {
    reach > size ==> 0 < reach <= |r| && r[reach - 1] == 0
  }

  lemma PutPropertyEnd(s: seq<byte>, at: nat, p: Property)
    requires at + PropertyReach(p) <= |s|
    ensures EndsInZero(PutProperty(s, at, p), at + PropertySize(p), at + PropertyReach(p))
  {
    hide Le, RoundToLong;
    if PropertyReach(p) > PropertySize(p) {
      var named := Overwrite(s, at, p.name + [0]);
      assert named[at + |p.name|] == (p.name + [0])[|p.name|];
    }
  }

  /** What comes later may not reach as far, or ends in a zero itself. */
  lemma EndKept(u: seq<byte>, r: seq<byte>, size: nat, reach: nat, a: nat, size': nat, reach': nat)
    requires EndsInZero(u, size, reach) && Within(u, r, a, reach') && EndsInZero(r, size', reach')
    requires size <= size' <= reach' <= |r|
    ensures EndsInZero(r, size', Max(reach, reach'))
  {
  }

  lemma {:induction false} PutPropertiesEnd(s: seq<byte>, at: nat, ps: seq<Property>)
    requires at + PropertiesReach(ps) <= |s|
    ensures EndsInZero(PutProperties(s, at, ps), at + PropertiesSize(ps), at + PropertiesReach(ps))
    decreases |ps|
  {
    hide PutProperty, PutProperties, PropertyReach, PropertySize, PropertiesReach, PropertiesSize, Within, EndsInZero;
    if ps == [] {
      NoProperties(s, at);
    } else {
      PropertiesStep(s, at, ps);
      var u, next := PutProperty(s, at, ps[0]), at + PropertySize(ps[0]);
      PutPropertyEnd(s, at, ps[0]);
      PutPropertiesWithin(u, next, ps[1..]);
      PutPropertiesEnd(u, next, ps[1..]);
      EndKept(u, PutProperties(s, at, ps), next, at + PropertyReach(ps[0]), next,
              at + PropertiesSize(ps), next + PropertiesReach(ps[1..]));
    }
  }

  /** When a tree reaches past the end of its block, the last byte it reaches is written: it
      becomes the terminator of a name. */
  lemma {:induction false} PutTreeEnd(s: seq<byte>, at: nat, t: Tree)
    requires at + Reach(t) <= |s|
    ensures EndsInZero(PutTree(s, at, t), at + BlockSize(t), at + Reach(t))
    decreases t, 1
  {
    hide PutProperties, PutTrees, Counters, PropertiesReach, ReachAll, PropertiesSize, BlockSize, BlockSizeAll, Within;
    var props := at + NODE_SIZE;
    var kids := props + PropertiesSize(t.props);
    var u := PutProperties(s, props, t.props);
    BlockSizeParts(t);
    ReachAllBound(t.kids);
    PutPropertiesEnd(s, props, t.props);
    PutTreesWithin(u, kids, t.kids);
    PutTreesEnd(u, kids, t.kids);
    EndKept(u, PutTrees(u, kids, t.kids), kids, props + PropertiesReach(t.props), kids,
            at + BlockSize(t), kids + ReachAll(t.kids));
  }

  lemma {:induction false} PutTreesEnd(s: seq<byte>, at: nat, ts: seq<Tree>)
    requires at + ReachAll(ts) <= |s|
    ensures EndsInZero(PutTrees(s, at, ts), at + BlockSizeAll(ts), at + ReachAll(ts))
    decreases ts, 0
  {
    hide PutTree, PutTrees, Reach, ReachAll, BlockSize, BlockSizeAll, Within, EndsInZero;
    if ts == [] {
      NoTrees(s, at);
    } else {
      TreesStep(s, at, ts);
      var u, next := PutTree(s, at, ts[0]), at + BlockSize(ts[0]);
      PutTreeEnd(s, at, ts[0]);
      PutTreesWithin(u, next, ts[1..]);
      PutTreesEnd(u, next, ts[1..]);
      EndKept(u, PutTrees(s, at, ts), next, at + Reach(ts[0]), next, at + BlockSizeAll(ts), next + ReachAll(ts[1..]));
    }
  }

  /** Into a buffer without zeros behind the block, something is written there exactly when the
      tree reaches past its block. */
  lemma PassesExactly(s: seq<byte>, t: Tree)
    requires Reach(t) <= |s| && forall k :: BlockSize(t) <= k < |s| ==> s[k] != 0
    ensures (exists k :: BlockSize(t) <= k < |s| && PutTree(s, 0, t)[k] != s[k]) <==> Reach(t) > BlockSize(t)
  {
    hide PutTree, Reach, BlockSize;
    PutTreeWithin(s, 0, t);
    PutTreeEnd(s, 0, t);
    if Reach(t) > BlockSize(t) {
      assert PutTree(s, 0, t)[Reach(t) - 1] != s[Reach(t) - 1];
    }
  }

  // ----- Names in their slots make the block

  ghost predicate Blank(s: seq<byte>, a: nat, b: nat) {
    a <= b <= |s| && forall k :: a <= k < b ==> s[k] == 0
  }

  lemma BlankInside(s: seq<byte>, a: nat, b: nat)
    requires Blank(s, a, b)
    ensures a <= b <= |s|
  {
  }

  lemma BlankKept(s: seq<byte>, u: seq<byte>, a: nat, b: nat, c: nat)
    requires Blank(s, a, c) && Within(s, u, a, b) && a <= b <= c
    ensures Blank(u, b, c) && Blank(s, a, b)
  {
  }

  lemma PutPropertyBytes(s: seq<byte>, at: nat, p: Property)
    requires InSlot(p) && Blank(s, at, at + PropertySize(p))
    ensures PutProperty(s, at, p)[at..at + PropertySize(p)] == PropertyBytes(p)
  {
    hide Le, RoundToLong;
    var r, b, end := PutProperty(s, at, p), PropertyBytes(p), at + PropertySize(p);
    var named := Overwrite(s, at, p.name + [0]);
    forall k | 0 <= k < PropertySize(p)
      ensures named[at + k] == Slot(p)[k]
    {
    }
    var front, mid, back := at + NAME_LENGTH, at + PROPERTY_SIZE, at + PROPERTY_SIZE + |p.value|;
    assert r[at..front] == Slot(p)[..NAME_LENGTH];
    assert r[front..mid] == Le(|p.value|, 4) && r[mid..back] == p.value;
    assert r[back..end] == Slot(p)[PROPERTY_SIZE + |p.value|..];
    SliceJoin(r, at, front, mid);
    SliceJoin(r, at, mid, back);
    SliceJoin(r, at, back, end);
  }

  /** Two stretches written one after the other. */
  lemma Appended(u: seq<byte>, r: seq<byte>, at: nat, mid: nat, end: nat)
    requires at <= mid <= end <= |r| && Within(u, r, mid, end)
    ensures r[at..end] == u[at..mid] + r[mid..end]
  {
  }

  lemma {:induction false} PutPropertiesBytes(s: seq<byte>, at: nat, ps: seq<Property>)
    requires PropertiesInSlots(ps) && Blank(s, at, at + PropertiesSize(ps))
    ensures PropertiesReach(ps) == PropertiesSize(ps)
    ensures PutProperties(s, at, ps)[at..at + PropertiesSize(ps)] == PropertiesBytes(ps)
    decreases |ps|
  {
    hide PutProperty, PutProperties, PropertySize, PropertyReach, PropertiesSize, PropertiesReach, InSlot,
         PropertyBytes, Blank, Within;
    BlankInside(s, at, at + PropertiesSize(ps));
    PropertiesReachBound(ps);
    if ps == [] {
      NoProperties(s, at);
    } else {
      PropertiesStep(s, at, ps);
      var u, next, end := PutProperty(s, at, ps[0]), at + PropertySize(ps[0]), at + PropertiesSize(ps);
      PropertyInSlot(ps[0]);
      PutPropertyWithin(s, at, ps[0]);
      BlankKept(s, u, at, next, end);
      PutPropertyBytes(s, at, ps[0]);
      PutPropertiesWithin(u, next, ps[1..]);
      PutPropertiesBytes(u, next, ps[1..]);
      Appended(u, PutProperties(s, at, ps), at, next, end);
    }
  }

  lemma PropertyInSlot(p: Property)
    requires InSlot(p)
    ensures PropertyReach(p) == PropertySize(p)
  {
  }

  lemma {:induction false} PutTreeBlock(s: seq<byte>, at: nat, t: Tree)
    requires InSlots(t) && Blank(s, at, at + BlockSize(t))
    ensures Reach(t) == BlockSize(t) && PutTree(s, at, t)[at..at + BlockSize(t)] == Block(t)
    decreases t, 1
  {
    hide PutProperties, PutTrees, PropertiesReach, ReachAll, PropertiesSize, BlockSize, BlockSizeAll, PropertiesBytes,
         BlockAll, InSlot;
    var props, end := at + NODE_SIZE, at + BlockSize(t);
    var kids := props + PropertiesSize(t.props);
    BlockSizeParts(t);
    ReachBound(t);
    ReachAllBound(t.kids);
    var u := PutProperties(s, props, t.props);
    PutPropertiesBytes(s, props, t.props);
    PutPropertiesWithin(s, props, t.props);
    var v := PutTrees(u, kids, t.kids);
    PutTreesBlock(u, kids, t.kids);
    PutTreesWithin(u, kids, t.kids);
    Appended(u, v, props, kids, end);
    var r := PutTree(s, at, t);
    assert r[at..props] == Counters(t) && r[props..end] == v[props..end];
    SliceJoin(r, at, props, end);
    Associate(Counters(t), PropertiesBytes(t.props), BlockAll(t.kids));
  }

  lemma {:induction false} PutTreesBlock(s: seq<byte>, at: nat, ts: seq<Tree>)
    requires InSlotsAll(ts) && Blank(s, at, at + BlockSizeAll(ts))
    ensures ReachAll(ts) == BlockSizeAll(ts) && PutTrees(s, at, ts)[at..at + BlockSizeAll(ts)] == BlockAll(ts)
    decreases ts, 0
  {
    hide PutTree, PutTrees, BlockSize, BlockSizeAll, InSlots, Block, Reach, ReachAll, Blank, Within;
    BlankInside(s, at, at + BlockSizeAll(ts));
    ReachAllBound(ts);
    if ts == [] {
      NoTrees(s, at);
    } else {
      TreesStep(s, at, ts);
      ReachBound(ts[0]);
      var u, next, end := PutTree(s, at, ts[0]), at + BlockSize(ts[0]), at + BlockSizeAll(ts);
      PutTreeWithin(s, at, ts[0]);
      BlankKept(s, u, at, next, end);
      PutTreeBlock(s, at, ts[0]);
      PutTreesWithin(u, next, ts[1..]);
      PutTreesBlock(u, next, ts[1..]);
      Appended(u, PutTrees(s, at, ts), at, next, end);
    }
  }

  /** Written into a cleared stretch, a tree reads back exactly when every name fits its
      field. */
  lemma ReadBackExactly(s: seq<byte>, t: Tree)
    requires Reach(t) <= |s| && Blank(s, 0, BlockSize(t)) && Small(t)
    ensures BlockSize(t) <= |s|
    ensures ReadNode(PutTree(s, 0, t)[..BlockSize(t)]) == Read(t, []) <==> NamesFit(t)
  {
    hide PutTree, Reach, BlockSize, Block, ReadNode, Small, NamesFit, InSlots;
    ReachBound(t);
    ReadNodeFits(PutTree(s, 0, t)[..BlockSize(t)]);
    if NamesFit(t) {
      FittingInSlots(t);
      PutTreeBlock(s, 0, t);
      BlockReadBack(t, []);
      assert Block(t) + [] == Block(t);
    }
  }
}

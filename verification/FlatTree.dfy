/** Device trees, the flat binary block, and reading the block back. */
module FlatTree {
  import opened Bytes

  datatype Property = Property(name: seq<byte>, value: seq<byte>)

  /** What a node stands for: its properties in order and its subtrees in list order. */
  datatype Tree = Tree(props: seq<Property>, kids: seq<Tree>)

  // ----- The flat block

  const NAME_LENGTH := 32
  const NODE_SIZE := 8
  const PROPERTY_SIZE := 36

  function RoundToLong(n: nat): (r: nat)
    ensures n <= r < n + 4
  {
    (n + 3) / 4 * 4
  }

  function Zeros(n: nat): (s: seq<byte>)
    ensures |s| == n
  {
    seq(n, _ => 0)
  }

  /** A name fits its field with a terminator and is a C string. */
  predicate NameFits(name: seq<byte>) {
    |name| < NAME_LENGTH && 0 !in name
  }

  /** The room a property takes, whatever its name. */
  function PropertySize(p: Property): nat {
    PROPERTY_SIZE + RoundToLong(|p.value|)
  }

  /** The name, with its terminator, does not reach past the property. It may be longer than
      its field. */
  predicate InSlot(p: Property) {
    |p.name| < PropertySize(p)
  }

  /** The name with zeros behind it, cut off at the end of the property. Length and value are
      written over it. */
  function Slot(p: Property): (s: seq<byte>)
    ensures |s| == PropertySize(p)
  {
    (p.name + Zeros(PropertySize(p)))[..PropertySize(p)]
  }

  function PropertyBytes(p: Property): (s: seq<byte>)
    ensures |s| == PropertySize(p)
  {
    Slot(p)[..NAME_LENGTH] + Le(|p.value|, 4) + p.value + Slot(p)[PROPERTY_SIZE + |p.value|..]
  }

  function PropertiesBytes(ps: seq<Property>): seq<byte> {
    if ps == [] then [] else PropertyBytes(ps[0]) + PropertiesBytes(ps[1..])
  }

  predicate PropertiesInSlots(ps: seq<Property>) {
    ps == [] || (InSlot(ps[0]) && PropertiesInSlots(ps[1..]))
  }

  predicate InSlots(t: Tree)
    decreases t, 1
  {
    PropertiesInSlots(t.props) && InSlotsAll(t.kids)
  }

  predicate InSlotsAll(ts: seq<Tree>)
    decreases ts, 0
  {
    ts == [] || (InSlots(ts[0]) && InSlotsAll(ts[1..]))
  }

  predicate NamesFit(t: Tree)
    decreases t, 1
  {
    (forall p :: p in t.props ==> NameFits(p.name)) && NamesFitAll(t.kids)
  }

  predicate NamesFitAll(ts: seq<Tree>)
    decreases ts, 0
  {
    ts == [] || (NamesFit(ts[0]) && NamesFitAll(ts[1..]))
  }

  lemma {:induction false} FittingPropertiesInSlots(ps: seq<Property>)
    requires forall p :: p in ps ==> NameFits(p.name)
    ensures PropertiesInSlots(ps)
  {
    if ps != [] {
      FittingPropertiesInSlots(ps[1..]);
    }
  }

  /** Names that fit their fields stay in their slots. */
  lemma {:induction false} FittingInSlots(t: Tree)
    requires NamesFit(t)
    ensures InSlots(t)
    decreases t, 1
  {
    FittingPropertiesInSlots(t.props);
    FittingInSlotsAll(t.kids);
  }

  lemma {:induction false} FittingInSlotsAll(ts: seq<Tree>)
    requires NamesFitAll(ts)
    ensures InSlotsAll(ts)
    decreases ts, 0
  {
    if ts != [] {
      FittingInSlots(ts[0]);
      FittingInSlotsAll(ts[1..]);
    }
  }

  /** Counts, properties, then the children one after another. */
  function Block(t: Tree): seq<byte>
    decreases t, 1
  {
    Le(|t.props|, 4) + Le(|t.kids|, 4) + PropertiesBytes(t.props) + BlockAll(t.kids)
  }

  function BlockAll(ts: seq<Tree>): seq<byte>
    decreases ts, 0
  {
    if ts == [] then [] else Block(ts[0]) + BlockAll(ts[1..])
  }

  // ----- Reading the block back

  /** A C string in a field: up to the first zero. */
  function CString(s: seq<byte>): seq<byte> {
    if s == [] || s[0] == 0 then [] else [s[0]] + CString(s[1..])
  }

  datatype Reading<T> = Short | Read(value: T, rest: seq<byte>)

  /** Nothing is read when a name does not end inside its field. */
  function ReadProperty(s: seq<byte>): (r: Reading<Property>)
    ensures r.Read? ==> |r.rest| < |s|
  {
    if |s| < PROPERTY_SIZE || 0 !in s[..NAME_LENGTH] then Short
    else
      var length := FastRead(s, NAME_LENGTH, 4);
      var padded := RoundToLong(length);
      if |s| < PROPERTY_SIZE + padded then Short
      else Read(Property(CString(s[..NAME_LENGTH]), s[PROPERTY_SIZE..PROPERTY_SIZE + length]),
                s[PROPERTY_SIZE + padded..])
  }

  function ReadProperties(s: seq<byte>, n: nat): (r: Reading<seq<Property>>)
    ensures r.Read? ==> |r.rest| <= |s|
    decreases n
  {
    if n == 0 then Read([], s)
    else match ReadProperty(s)
      case Short => Short
      case Read(p, rest) =>
        match ReadProperties(rest, n - 1)
        case Short => Short
        case Read(ps, rest') => Read([p] + ps, rest')
  }

  function ReadNode(s: seq<byte>): (r: Reading<Tree>)
    ensures r.Read? ==> |r.rest| < |s|
    decreases |s|, 0
  {
    if |s| < NODE_SIZE then Short
    else
      match ReadProperties(s[NODE_SIZE..], FastRead(s, 0, 4))
      case Short => Short
      case Read(ps, rest) =>
        match ReadNodes(rest, FastRead(s, 4, 4))
        case Short => Short
        case Read(ks, rest') => Read(Tree(ps, ks), rest')
  }

  function ReadNodes(s: seq<byte>, n: nat): (r: Reading<seq<Tree>>)
    ensures r.Read? ==> |r.rest| <= |s|
    decreases |s|, n + 1
  {
    if n == 0 then Read([], s)
    else match ReadNode(s)
      case Short => Short
      case Read(t, rest) =>
        match ReadNodes(rest, n - 1)
        case Short => Short
        case Read(ts, rest') => Read([t] + ts, rest')
  }

  // ----- The block determines the tree

  lemma {:induction false} CStringOf(name: seq<byte>, z: nat)
    requires 0 !in name && z > 0
    ensures CString(name + Zeros(z)) == name
  {
    if name == [] {
      assert name + Zeros(z) == Zeros(z);
    } else {
      assert (name + Zeros(z))[1..] == name[1..] + Zeros(z);
      CStringOf(name[1..], z);
    }
  }

  lemma LeRead(n: nat, rest: seq<byte>)
    requires n < 0x1_0000_0000
    ensures FastRead(Le(n, 4) + rest, 0, 4) == n
  {
    Pow2Constants();
    FromLeOfLe(n, 4);
    assert (Le(n, 4) + rest)[0..4] == Le(n, 4);
  }

  /** The bytes of a property whose name fits: padded name, length, value, padding. */
  lemma FittingBytes(p: Property)
    requires NameFits(p.name)
    ensures PropertyBytes(p) ==
            p.name + Zeros(NAME_LENGTH - |p.name|)
            + (Le(|p.value|, 4) + (p.value + Zeros(RoundToLong(|p.value|) - |p.value|)))
  {
    hide Le, RoundToLong;
    assert Slot(p) == p.name + Zeros(PropertySize(p) - |p.name|);
    assert Slot(p)[..NAME_LENGTH] == p.name + Zeros(NAME_LENGTH - |p.name|);
    assert Slot(p)[PROPERTY_SIZE + |p.value|..] == Zeros(RoundToLong(|p.value|) - |p.value|);
  }

  lemma PropertyReadBack(p: Property, rest: seq<byte>)
    requires NameFits(p.name) && |p.value| < 0x1_0000_0000
    ensures ReadProperty(PropertyBytes(p) + rest) == Read(p, rest)
  {
    hide Le, FromLe, RoundToLong, PropertyBytes;
    var field := p.name + Zeros(NAME_LENGTH - |p.name|);
    var padded := p.value + Zeros(RoundToLong(|p.value|) - |p.value|);
    FittingBytes(p);
    CStringOf(p.name, NAME_LENGTH - |p.name|);
    LeRead(|p.value|, padded + rest);
    var s := PropertyBytes(p) + rest;
    assert s == field + (Le(|p.value|, 4) + (padded + rest));
    assert s[..NAME_LENGTH] == field && field[|p.name|] == 0;
    assert s[NAME_LENGTH..NAME_LENGTH + 4] == Le(|p.value|, 4) == (Le(|p.value|, 4) + (padded + rest))[0..4];
    assert s[PROPERTY_SIZE..PROPERTY_SIZE + |p.value|] == p.value;
    assert s[PROPERTY_SIZE + RoundToLong(|p.value|)..] == rest;
  }

  /** Every value and every count fits its 32-bit field. */
  predicate Small(t: Tree)
    decreases t, 1
  {
    && |t.props| < 0x1_0000_0000 && |t.kids| < 0x1_0000_0000
    && (forall p :: p in t.props ==> |p.value| < 0x1_0000_0000)
    && SmallAll(t.kids)
  }

  predicate SmallAll(ts: seq<Tree>)
    decreases ts, 0
  {
    ts == [] || (Small(ts[0]) && SmallAll(ts[1..]))
  }

  lemma {:induction false} PropertiesReadBack(ps: seq<Property>, rest: seq<byte>)
    requires forall p :: p in ps ==> NameFits(p.name) && |p.value| < 0x1_0000_0000
    ensures ReadProperties(PropertiesBytes(ps) + rest, |ps|) == Read(ps, rest)
    decreases |ps|
  {
    hide PropertyBytes, ReadProperty;
    if ps == [] {
      assert [] + rest == rest;
    } else {
      var a, b := PropertyBytes(ps[0]), PropertiesBytes(ps[1..]);
      Associate(a, b, rest);
      PropertyReadBack(ps[0], b + rest);
      PropertiesReadBack(ps[1..], rest);
      assert [ps[0]] + ps[1..] == ps;
    }
  }

  /** Reading the flat block gives back the tree: properties and children in order. */
  lemma {:induction false} BlockReadBack(t: Tree, rest: seq<byte>)
    requires NamesFit(t) && Small(t)
    ensures ReadNode(Block(t) + rest) == Read(t, rest)
    decreases t, 1
  {
    hide Le, FromLe, PropertiesBytes, ReadProperties;
    var p, k := PropertiesBytes(t.props), BlockAll(t.kids);
    var s := Block(t) + rest;
    var tail := p + (k + rest);
    assert s == Le(|t.props|, 4) + (Le(|t.kids|, 4) + tail);
    LeRead(|t.props|, Le(|t.kids|, 4) + tail);
    LeRead(|t.kids|, tail);
    assert s[4..8] == (Le(|t.kids|, 4) + tail)[0..4];
    assert s[NODE_SIZE..] == tail;
    PropertiesReadBack(t.props, k + rest);
    BlockAllReadBack(t.kids, rest);
  }

  lemma {:induction false} BlockAllReadBack(ts: seq<Tree>, rest: seq<byte>)
    requires NamesFitAll(ts) && SmallAll(ts)
    ensures ReadNodes(BlockAll(ts) + rest, |ts|) == Read(ts, rest)
    decreases ts, 0
  {
    if ts == [] {
      assert [] + rest == rest;
    } else {
      hide Block, ReadNode, NamesFit, Small;
      var a, b := Block(ts[0]), BlockAll(ts[1..]);
      Associate(a, b, rest);
      BlockReadBack(ts[0], b + rest);
      BlockAllReadBack(ts[1..], rest);
      assert [ts[0]] + ts[1..] == ts;
    }
  }

  // ----- Where the fields stand

  /** A property whose name fits: the name and zeros in 32 bytes, four bytes of length, the
      value, and zeros up to a multiple of four. */
  lemma PropertyFields(p: Property)
    requires NameFits(p.name) && |p.value| < 0x1_0000_0000
    ensures var b := PropertyBytes(p);
            && |b| % 4 == 0 && 36 + |p.value| <= |b| < 40 + |p.value|
            && b[..|p.name|] == p.name && (forall k :: |p.name| <= k < 32 ==> b[k] == 0)
            && FastRead(b, 32, 4) == |p.value|
            && b[36..36 + |p.value|] == p.value && (forall k :: 36 + |p.value| <= k < |b| ==> b[k] == 0)
  {
    hide Le, FromLe, PropertyBytes;
    FittingBytes(p);
    var field := p.name + Zeros(NAME_LENGTH - |p.name|);
    var padded := p.value + Zeros(RoundToLong(|p.value|) - |p.value|);
    var b := PropertyBytes(p);
    assert b == field + (Le(|p.value|, 4) + padded);
    LeRead(|p.value|, padded);
    assert b[32..36] == (Le(|p.value|, 4) + padded)[0..4];
    assert b[..|p.name|] == field[..|p.name|];
    assert forall k :: 0 <= k < 32 ==> b[k] == field[k];
    assert forall k :: 36 <= k < |b| ==> b[k] == padded[k - 36];
  }

  /** A node: the number of properties and of children, the properties, the children. */
  lemma BlockFields(t: Tree)
    requires Small(t)
    ensures var b := Block(t); var n := |PropertiesBytes(t.props)|;
            && |b| >= 8 + n && FastRead(b, 0, 4) == |t.props| && FastRead(b, 4, 4) == |t.kids|
            && b[8..8 + n] == PropertiesBytes(t.props) && b[8 + n..] == BlockAll(t.kids)
  {
    hide Le, FromLe, PropertiesBytes, BlockAll;
    var tail := PropertiesBytes(t.props) + BlockAll(t.kids);
    var b := Block(t);
    assert b == Le(|t.props|, 4) + (Le(|t.kids|, 4) + tail);
    LeRead(|t.props|, Le(|t.kids|, 4) + tail);
    LeRead(|t.kids|, tail);
    assert b[4..8] == (Le(|t.kids|, 4) + tail)[0..4];
  }

  // ----- Names that do not fit

  lemma {:induction false} CStringFits(s: seq<byte>)
    requires 0 in s
    ensures |CString(s)| < |s| && 0 !in CString(s)
  {
    if s[0] != 0 {
      assert s == [s[0]] + s[1..];
      CStringFits(s[1..]);
    }
  }

  lemma {:induction false} PropertiesReadFit(s: seq<byte>, n: nat)
    ensures var r := ReadProperties(s, n); r.Read? ==> forall p :: p in r.value ==> NameFits(p.name)
    decreases n
  {
    hide CString;
    if n > 0 && ReadProperty(s).Read? {
      CStringFits(s[..NAME_LENGTH]);
      PropertiesReadFit(ReadProperty(s).rest, n - 1);
    }
  }

  /** Whatever the bytes, a tree read from them has names that fit. */
  lemma {:induction false} ReadNodeFits(s: seq<byte>)
    ensures ReadNode(s).Read? ==> NamesFit(ReadNode(s).value)
    decreases |s|, 0
  {
    hide ReadProperties;
    if |s| >= NODE_SIZE {
      var r := ReadProperties(s[NODE_SIZE..], FastRead(s, 0, 4));
      PropertiesReadFit(s[NODE_SIZE..], FastRead(s, 0, 4));
      if r.Read? {
        ReadNodesFit(r.rest, FastRead(s, 4, 4));
      }
    }
  }

  lemma {:induction false} ReadNodesFit(s: seq<byte>, n: nat)
    ensures ReadNodes(s, n).Read? ==> NamesFitAll(ReadNodes(s, n).value)
    decreases |s|, n + 1
  {
    hide ReadNode;
    if n > 0 {
      ReadNodeFits(s);
      var r := ReadNode(s);
      if r.Read? {
        ReadNodesFit(r.rest, n - 1);
      }
    }
  }
}

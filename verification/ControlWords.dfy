/** The QuickLZ container format: groups of up to 31 chunks, each group behind a
    32-bit control word holding one flag a chunk and a sentinel bit. */
module ControlWords {
  import opened Bytes

  /** What one token puts in the stream: its flag and its bytes. */
  datatype Chunk = Chunk(isMatch: bool, body: seq<byte>)

  const GROUP := 31

  // ----- The stream as a function of the chunks

  function Flags(cs: seq<Chunk>): (f: seq<bool>)
    ensures |f| == |cs|
  {
    seq(|cs|, i requires 0 <= i < |cs| => cs[i].isMatch)
  }

  function Bodies(cs: seq<Chunk>): seq<byte> {
    if cs == [] then [] else cs[0].body + Bodies(cs[1..])
  }

  /** The flags as binary digits, first flag least significant. */
  function Val(f: seq<bool>): nat {
    if f == [] then 0 else (if f[0] then 1 else 0) + 2 * Val(f[1..])
  }

  /** The flags still to be read and, above them, the sentinel bit. */
  function Word(f: seq<bool>): nat {
    if f == [] then 1 else (if f[0] then 1 else 0) + 2 * Word(f[1..])
  }

  function Pad(n: nat): (f: seq<bool>)
    ensures |f| == n
  {
    seq(n, _ => false)
  }

  /** A group of chunks as stored: control word, then the bodies. */
  function Group(g: seq<Chunk>): seq<byte>
    requires |g| <= GROUP
  {
    Le(Word(Flags(g) + Pad(GROUP - |g|)), 4) + Bodies(g)
  }

  function Layout(cs: seq<Chunk>): seq<byte> {
    if cs == [] then []
    else if |cs| <= GROUP then Group(cs)
    else Group(cs[..GROUP]) + Layout(cs[GROUP..])
  }

  lemma {:induction false} BodiesConcat(a: seq<Chunk>, b: seq<Chunk>)
    ensures Bodies(a + b) == Bodies(a) + Bodies(b)
  {
    if a == [] {
      assert a + b == b;
    } else {
      assert (a + b)[1..] == a[1..] + b;
      BodiesConcat(a[1..], b);
    }
  }

  lemma {:induction false} BodiesSnoc(a: seq<Chunk>, c: Chunk)
    ensures Bodies(a + [c]) == Bodies(a) + c.body
  {
    BodiesConcat(a, [c]);
    assert Bodies([c]) == c.body + Bodies([]);
  }

  lemma LayoutFirstGroup(cs: seq<Chunk>)
    requires |cs| >= GROUP
    ensures Layout(cs) == Group(cs[..GROUP]) + Layout(cs[GROUP..])
  {
    if |cs| == GROUP {
      assert cs[..GROUP] == cs && cs[GROUP..] == [];
      assert Group(cs) + [] == Group(cs);
    }
  }

  /** Whole groups can be split off the front. */
  lemma {:induction false} LayoutConcat(a: seq<Chunk>, b: seq<Chunk>)
    requires |a| % GROUP == 0
    ensures Layout(a + b) == Layout(a) + Layout(b)
  {
    if a == [] {
      assert a + b == b;
    } else {
      LayoutFirstGroup(a);
      LayoutFirstGroup(a + b);
      assert (a + b)[..GROUP] == a[..GROUP];
      assert (a + b)[GROUP..] == a[GROUP..] + b;
      LayoutConcat(a[GROUP..], b);
      var g, l := Group(a[..GROUP]), Layout(a[GROUP..]);
      assert g + (l + Layout(b)) == (g + l) + Layout(b);
    }
  }

  lemma InsideGroup(done: nat, open: nat)
    requires done % GROUP == 0 && open <= GROUP
    ensures (done + open) % GROUP == if open == GROUP then 0 else open
  {
  }

  // ----- Writing: the control word is built downwards from bit 31

  /** A 1 bit above `n` zeros, under the digits of `v`: the compressor's
      cword_val when `GROUP - n` flags have been pushed in from the top. */
  function Scaled(n: nat, v: nat): nat {
    if n == 0 then 2 * v + 1 else 2 * Scaled(n - 1, v)
  }

  lemma {:induction false} ScaledAdd(n: nat, v: nat, j: nat)
    ensures Scaled(n, v + Pow2(j)) == Scaled(n, v) + Pow2(n + 1 + j)
  {
    if n > 0 {
      ScaledAdd(n - 1, v, j);
    }
  }

  lemma {:induction false} ValSnoc(f: seq<bool>, b: bool)
    ensures Val(f + [b]) == Val(f) + if b then Pow2(|f|) else 0
  {
    if f == [] {
      assert (f + [b])[1..] == [];
    } else {
      assert (f + [b])[1..] == f[1..] + [b];
      ValSnoc(f[1..], b);
    }
  }

  lemma {:induction false} WordVal(f: seq<bool>, pad: nat)
    ensures Word(f + Pad(pad)) == Val(f) + Pow2(|f| + pad)
    ensures Val(f) < Pow2(|f|)
  {
    if f == [] {
      assert f + Pad(pad) == Pad(pad);
      WordPad(pad);
    } else {
      assert (f + Pad(pad))[1..] == f[1..] + Pad(pad);
      WordVal(f[1..], pad);
    }
  }

  lemma {:induction false} WordPad(pad: nat)
    ensures Word(Pad(pad)) == Pow2(pad)
  {
    if pad > 0 {
      assert Pad(pad)[1..] == Pad(pad - 1);
      WordPad(pad - 1);
    }
  }

  /** cword_val while the group `open` is being collected. */
  function Collecting(open: seq<Chunk>): nat
    requires |open| <= GROUP
  {
    Scaled(GROUP - |open|, Val(Flags(open)))
  }

  lemma CollectingEmpty()
    ensures Collecting([]) == 0x8000_0000
  {
    ScaledPow2(31);
    Pow2Constants();
  }

  lemma {:induction false} ScaledPow2(n: nat)
    ensures Scaled(n, 0) == Pow2(n)
  {
    if n > 0 {
      ScaledPow2(n - 1);
    }
  }

  /** The low bit of cword_val is set exactly when the group is full. */
  lemma CollectingFull(open: seq<Chunk>)
    requires |open| <= GROUP
    ensures Collecting(open) % 2 == 1 <==> |open| == GROUP
  {
  }

  /** Shifting right and setting bit 31 for a match pushes one more flag. */
  lemma CollectingPush(open: seq<Chunk>, c: Chunk)
    requires |open| < GROUP
    ensures Collecting(open + [c]) == Collecting(open) / 2 + if c.isMatch then 0x8000_0000 else 0
  {
    var j, v := |open|, Val(Flags(open));
    assert Flags(open + [c]) == Flags(open) + [c.isMatch];
    ValSnoc(Flags(open), c.isMatch);
    assert Scaled(GROUP - j, v) == 2 * Scaled(GROUP - j - 1, v);
    if c.isMatch {
      ScaledAdd(GROUP - j - 1, v, j);
      Pow2Constants();
    }
  }

  /** Bit `j` of a control word is the flag of chunk `j`; the bit above all flags is set. */
  lemma {:induction false} WordBits(f: seq<bool>, j: nat)
    requires j <= |f|
    ensures Bit(Word(f), j) == 1 <==> j == |f| || f[j]
  {
    hide Bit;
    WordHalves(f);
    if j == 0 {
      BitZero(Word(f));
    } else {
      BitAbove(Word(f), j - 1);
      WordBits(f[1..], j - 1);
    }
  }

  lemma WordHalves(f: seq<bool>)
    ensures Word(f) % 2 == (if f == [] || f[0] then 1 else 0)
    ensures f != [] ==> Word(f) / 2 == Word(f[1..])
  {
  }

  /** A full group's stored word is cword_val shifted once with bit 31 set. */
  lemma CollectedWord(open: seq<Chunk>, pad: nat)
    requires |open| + pad == GROUP
    ensures Scaled(0, Val(Flags(open))) / 2 + 0x8000_0000 == Word(Flags(open) + Pad(pad))
    ensures Val(Flags(open)) < 0x8000_0000
  {
    WordVal(Flags(open), pad);
    Pow2Constants();
    ValBound(Flags(open), GROUP);
  }

  lemma {:induction false} ValBound(f: seq<bool>, n: nat)
    requires |f| <= n
    ensures Val(f) < Pow2(n)
  {
    if f == [] {
    } else {
      ValBound(f[1..], n - 1);
    }
  }

  // ----- Reading: flags are shifted out from the bottom

  /** The reader at `src` still has `c` chunks of the current group to go, from
      chunk `i` on; `w` holds their flags, `pad` spare ones and the sentinel. */
  ghost predicate Reading(s: seq<byte>, src: nat, w: nat, cs: seq<Chunk>, i: nat, c: nat, pad: nat) {
    && src <= |s|
    && i + c <= |cs|
    && (pad > 0 ==> i + c == |cs|)
    && w == Word(Flags(cs[i..i + c]) + Pad(pad))
    && Bodies(cs[i..i + c]) + Layout(cs[i + c..]) <= s[src..]
  }

  lemma WordOne(f: seq<bool>)
    ensures Word(f) >= 1
    ensures Word(f) == 1 <==> f == []
  {
    if f != [] {
      WordOne(f[1..]);
    }
  }

  lemma WordRange(f: seq<bool>)
    requires |f| <= GROUP
    ensures Word(f) < 0x1_0000_0000
  {
    assert f + Pad(0) == f;
    WordVal(f, 0);
    ValBound(f, GROUP);
    Pow2Monotone(|f|, GROUP);
    Pow2Constants();
  }

  /** Number of chunks in the group that starts at chunk `i`. */
  function GroupSize(cs: seq<Chunk>, i: nat): (n: nat)
    requires i <= |cs|
  {
    if |cs| - i <= GROUP then |cs| - i else GROUP
  }

  lemma LayoutAt(cs: seq<Chunk>, i: nat)
    requires i < |cs|
    ensures var n := GroupSize(cs, i);
            Layout(cs[i..]) == Group(cs[i..i + n]) + Layout(cs[i + n..])
  {
    var n := GroupSize(cs, i);
    if n == |cs| - i {
      assert cs[i..i + n] == cs[i..] && cs[i + n..] == [];
      assert Group(cs[i..]) + [] == Group(cs[i..]);
    } else {
      assert cs[i..][..GROUP] == cs[i..i + n] && cs[i..][GROUP..] == cs[i + n..];
    }
  }

  /** A prefix of four bytes and more, split after the four. */
  lemma SplitPrefix(s: seq<byte>, src: nat, head: seq<byte>, rest: seq<byte>)
    requires src <= |s|
    requires head + rest <= s[src..]
    ensures src + |head| <= |s| && s[src..src + |head|] == head
    ensures rest <= s[src + |head|..]
  {
    var n := |head|;
    assert s[src..src + n] == s[src..][..n] == (head + rest)[..n];
    assert s[src + n..] == s[src..][n..];
    assert (head + rest)[n..] == rest;
  }

  /** Loading the next control word. */
  lemma Reload(s: seq<byte>, src: nat, cs: seq<Chunk>, i: nat)
    requires Reading(s, src, 1, cs, i, 0, 0)
    requires i < |cs|
    ensures src + 4 <= |s|
    ensures var n := GroupSize(cs, i); Reading(s, src + 4, FastRead(s, src, 4), cs, i, n, GROUP - n)
    ensures GroupSize(cs, i) > 0
  {
    hide Layout, Le, FromLe, Word;
    var n := GroupSize(cs, i);
    var f := Flags(cs[i..i + n]) + Pad(GROUP - n);
    var rest := Bodies(cs[i..i + n]) + Layout(cs[i + n..]);
    assert Le(Word(f), 4) + rest <= s[src..] by {
      assert cs[i..i + 0] == [] && cs[i + 0..] == cs[i..];
      assert [] + Layout(cs[i..]) == Layout(cs[i..]);
      LayoutAt(cs, i);
      assert Group(cs[i..i + n]) + Layout(cs[i + n..]) == Le(Word(f), 4) + rest;
    }
    SplitPrefix(s, src, Le(Word(f), 4), rest);
    Pow2Constants();
    WordRange(f);
    FromLeOfLe(Word(f), 4);
  }

  lemma WordStep(f: seq<bool>)
    requires f != []
    ensures Word(f) % 2 == (if f[0] then 1 else 0) && Word(f) / 2 == Word(f[1..])
  {
  }

  lemma BodiesStep(cs: seq<Chunk>, i: nat, c: nat)
    requires 0 < c && i + c <= |cs|
    ensures Bodies(cs[i..i + c]) == cs[i].body + Bodies(cs[i + 1..i + c])
  {
    assert cs[i..i + c][1..] == cs[i + 1..i + c];
  }

  /** Consuming one chunk: its flag is the low bit, its body is next. */
  lemma Advance(s: seq<byte>, src: nat, w: nat, cs: seq<Chunk>, i: nat, c: nat, pad: nat)
    requires Reading(s, src, w, cs, i, c, pad)
    requires c > 0
    ensures w % 2 == (if cs[i].isMatch then 1 else 0)
    ensures w > 1
    ensures var n := |cs[i].body|;
            && src + n <= |s|
            && s[src..src + n] == cs[i].body
            && Reading(s, src + n, w / 2, cs, i + 1, c - 1, pad)
  {
    hide Layout, Bodies, Word;
    var f := Flags(cs[i..i + c]) + Pad(pad);
    WordStep(f);
    WordOne(f);
    assert f[1..] == Flags(cs[i + 1..i + c]) + Pad(pad);
    var l := Layout(cs[i + c..]);
    var b := Bodies(cs[i + 1..i + c]);
    BodiesStep(cs, i, c);
    assert (cs[i].body + b) + l == cs[i].body + (b + l);
    SplitPrefix(s, src, cs[i].body, b + l);
    assert i + 1 + (c - 1) == i + c;
  }

  /** Between groups the word is just the sentinel. */
  lemma BetweenGroups(s: seq<byte>, src: nat, w: nat, cs: seq<Chunk>, i: nat, c: nat, pad: nat)
    requires Reading(s, src, w, cs, i, c, pad)
    requires i < |cs|
    ensures w == 1 <==> c == 0
    ensures c == 0 ==> pad == 0
  {
    WordOne(Flags(cs[i..i + c]) + Pad(pad));
  }
}

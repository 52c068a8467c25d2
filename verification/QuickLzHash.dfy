/** The bits of the hash. At level 1 the hash stands in the stream, so a decoder has to
    compute the compressor's very bits. */
module QuickLzHash {
  import opened Bytes
  import opened QuickLzTokens

  lemma XorStep(a: nat, b: nat)
    ensures Xor(a, b) % 2 == (if a % 2 == b % 2 then 0 else 1) && Xor(a, b) / 2 == Xor(a / 2, b / 2)
  {
  }

  lemma {:induction false} XorBits(a: nat, b: nat, i: nat)
    ensures Bit(Xor(a, b), i) == 1 <==> Bit(a, i) != Bit(b, i)
  {
    hide Bit, Xor;
    XorStep(a, b);
    if i == 0 {
      BitZero(a);
      BitZero(b);
      BitZero(Xor(a, b));
    } else {
      BitAbove(a, i - 1);
      BitAbove(b, i - 1);
      BitAbove(Xor(a, b), i - 1);
      XorBits(a / 2, b / 2, i - 1);
    }
  }

  /** A remainder by a power of two keeps the bits below it. */
  lemma {:induction false} MaskedBits(f: nat, k: nat, i: nat)
    requires i < k
    ensures Bit(f % Pow2(k), i) == Bit(f, i)
  {
    var g := f % Pow2(k);
    HalfFirst(f, Pow2(k - 1));
    DivMod(g, 2, f / 2 % Pow2(k - 1), f % 2);
    if i > 0 {
      BitAbove(f, i - 1);
      BitAbove(g, i - 1);
      MaskedBits(f / 2, k - 1, i - 1);
    }
  }

  function Halved(f: nat, n: nat): nat {
    if n == 0 then f else Halved(f / 2, n - 1)
  }

  lemma {:induction false} ShiftedBits(f: nat, n: nat, i: nat)
    ensures Bit(Halved(f, n), i) == Bit(f, i + n)
  {
    hide Bit;
    if n > 0 {
      ShiftedBits(f / 2, n - 1, i);
      BitAbove(f, i + n - 1);
    }
  }

  lemma HalvedFour(f: nat, n: nat)
    ensures Halved(f, n + 4) == Halved(f / 0x10, n)
  {
    assert Halved(f, n + 4) == Halved(f / 2, n + 3) == Halved(f / 2 / 2, n + 2) == Halved(f / 2 / 2 / 2, n + 1);
    assert f / 2 / 2 / 2 / 2 == f / 0x10;
  }

  lemma HalvedTwelve(f: nat)
    ensures Halved(f, 12) == f / 0x1000
  {
    HalvedFour(f, 8);
    HalvedFour(f / 0x10, 4);
    HalvedFour(f / 0x100, 0);
  }

  /** With a table of 2^k buckets, bit `i` of the hash is set exactly when bits `i` and
      `i + 12` of the three bytes differ. */
  lemma HashBits(x: seq<byte>, d: nat, k: nat, i: nat)
    requires d + 3 <= |x| && i < k
    ensures var f := x[d] + 0x100 * (x[d + 1] as int) + 0x1_0000 * (x[d + 2] as int);
            Bit(HashAt(x, d, Pow2(k)), i) == 1 <==> Bit(f, i) != Bit(f, i + 12)
  {
    hide Bit, Xor;
    var f := Fetch(x, d);
    FromLe3(x[d..d + 3]);
    MaskedBits(Xor(f / 0x1000, f), k, i);
    XorBits(f / 0x1000, f, i);
    HalvedTwelve(f);
    ShiftedBits(f, 12, i);
  }
}

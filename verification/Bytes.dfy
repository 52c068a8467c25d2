/** Bytes, and the little-endian reads and writes of the QuickLZ sources.
    Shifts and masks by constants are written as division and remainder. */
module Bytes {
  type byte = b: int | 0 <= b < 0x100
  type uint32 = n: int | 0 <= n < 0x1_0000_0000

  /** `n` bytes of `f`, least significant first: what fast_write stores. */
  function Le(f: nat, n: nat): (s: seq<byte>)
    ensures |s| == n
  {
    if n == 0 then [] else [f % 0x100] + Le(f / 0x100, n - 1)
  }

  /** The number whose little-endian bytes are `s`. */
  function FromLe(s: seq<byte>): nat {
    if s == [] then 0 else s[0] + 0x100 * FromLe(s[1..])
  }

  /** fast_read on the byte-wise path. */
  function FastRead(s: seq<byte>, p: nat, n: nat): nat
    requires p + n <= |s|
  {
    FromLe(s[p..p + n])
  }

  function Pow2(n: nat): (p: nat)
    ensures p > 0
  {
    if n == 0 then 1 else 2 * Pow2(n - 1)
  }

  lemma Pow2Constants()
    ensures Pow2(8) == 0x100 && Pow2(16) == 0x1_0000 && Pow2(24) == 0x100_0000
    ensures Pow2(31) == 0x8000_0000 && Pow2(32) == 0x1_0000_0000
  {
    assert Pow2(4) == 16;
    assert Pow2(8) == 0x100;
    assert Pow2(12) == 0x1000;
    assert Pow2(16) == 0x1_0000;
    assert Pow2(20) == 0x10_0000;
    assert Pow2(24) == 0x100_0000;
    assert Pow2(28) == 0x1000_0000;
  }

  /** Reading back what fast_write wrote, for a value that fits the bytes. */
  lemma {:induction false} FromLeOfLe(f: nat, n: nat)
    requires f < Pow2(8 * n)
    ensures FromLe(Le(f, n)) == f
  {
    if n > 0 {
      var rest := Le(f / 0x100, n - 1);
      assert ([f % 0x100] + rest)[1..] == rest;
      Pow2Byte(8 * (n - 1));
      FromLeOfLe(f / 0x100, n - 1);
    }
  }

  lemma {:induction false} Pow2Monotone(a: nat, b: nat)
    requires a <= b
    ensures Pow2(a) <= Pow2(b)
  {
    if a < b {
      Pow2Monotone(a, b - 1);
    }
  }

  lemma Pow2Byte(k: nat)
    ensures Pow2(k + 8) == 0x100 * Pow2(k)
  {
    assert Pow2(k + 2) == 4 * Pow2(k);
    assert Pow2(k + 4) == 4 * Pow2(k + 2);
    assert Pow2(k + 6) == 4 * Pow2(k + 4);
  }

  /** Quotient and remainder are the only ones. */
  lemma DivMod(f: nat, m: nat, q: nat, r: nat)
    requires r < m && f == q * m + r
    ensures f / m == q && f % m == r
  {
    var q', r' := f / m, f % m;
    assert f == q' * m + r';
    if q > q' {
      assert (q - q') * m == q * m - q' * m;
      AtLeastOnce(q - q', m);
    } else if q < q' {
      assert (q' - q) * m == q' * m - q * m;
      AtLeastOnce(q' - q, m);
    }
  }

  lemma AtLeastOnce(a: nat, m: nat)
    requires a >= 1
    ensures a * m >= m
  {
    assert a * m == (a - 1) * m + m;
  }

  /** Shifting by eight bits and then by sixteen or eight more. */
  lemma ShiftTwice(f: nat)
    ensures f / 0x100 / 0x100 == f / 0x1_0000
    ensures f / 0x100 / 0x1_0000 == f / 0x100_0000
  {
    var a, r := f / 0x100, f % 0x100;
    DivMod(f, 0x1_0000, a / 0x100, 0x100 * (a % 0x100) + r);
    DivMod(f, 0x100_0000, a / 0x1_0000, 0x100 * (a % 0x1_0000) + r);
  }

  lemma LeStep(f: nat, n: nat)
    requires n > 0
    ensures Le(f, n)[0] == f % 0x100
    ensures forall k :: 1 <= k < n ==> Le(f, n)[k] == Le(f / 0x100, n - 1)[k - 1]
  {
  }

  /** The bytes stored are the digits to base 256. */
  lemma LeDigits(f: nat, n: nat)
    requires 1 <= n
    ensures Le(f, n)[0] == f % 0x100
    ensures n > 1 ==> Le(f, n)[1] == f / 0x100 % 0x100
    ensures n > 2 ==> Le(f, n)[2] == f / 0x1_0000 % 0x100
    ensures n > 3 ==> Le(f, n)[3] == f / 0x100_0000 % 0x100
  {
    hide Le;
    LeStep(f, n);
    if n > 1 {
      ShiftTwice(f);
      LeDigits(f / 0x100, n - 1);
    }
  }

  /** Two stored bytes, put together again. */
  lemma Le2(f: nat)
    requires f < 0x1_0000
    ensures Le(f, 2)[0] + 0x100 * (Le(f, 2)[1] as int) == f
  {
    LeDigits(f, 2);
  }

  /** Three stored bytes: the low sixteen bits and the byte above them. */
  lemma Le3(hi: nat, lo: nat)
    requires lo < 0x1_0000 && hi < 0x100
    ensures var s := Le(0x1_0000 * hi + lo, 3);
            s[0] + 0x100 * (s[1] as int) == lo && s[2] == hi
  {
    hide Le;
    LeDigits(0x1_0000 * hi + lo, 3);
    LowDigits(0x1_0000 * hi + lo, hi, lo);
  }

  lemma LowDigits(f: nat, hi: nat, lo: nat)
    requires f == 0x1_0000 * hi + lo && lo < 0x1_0000
    ensures f / 0x1_0000 == hi && f % 0x100 == lo % 0x100 && f / 0x100 % 0x100 == lo / 0x100
  {
    assert f / 0x100 == 0x100 * hi + lo / 0x100;
  }

  /** Four bytes as a number, digit by digit. */
  lemma FromLe4(s: seq<byte>)
    requires |s| == 4
    ensures FromLe(s) == s[0] + 0x100 * (s[1] as int) + 0x1_0000 * (s[2] as int) + 0x100_0000 * (s[3] as int)
    ensures FromLe(s) < 0x1_0000_0000
  {
    assert s[1..][1..] == s[2..] && s[2..][1..] == s[3..] && s[3..][1..] == [];
    assert FromLe(s[3..]) == s[3];
    assert FromLe(s[2..]) == s[2] + 0x100 * (s[3] as int);
  }

  lemma FromLe3(s: seq<byte>)
    requires |s| == 3
    ensures FromLe(s) == s[0] + 0x100 * (s[1] as int) + 0x1_0000 * (s[2] as int)
  {
    assert s[1..][1..] == s[2..] && s[2..][1..] == [];
    assert FromLe(s[2..]) == s[2];
  }

  // ----- Bits

  /** Bit `i` of a number. */
  function Bit(f: nat, i: nat): nat {
    f / Pow2(i) % 2
  }

  /** Dividing by 2 * m is halving first; the last bit joins the remainder. */
  lemma HalfFirst(f: nat, m: nat)
    requires m > 0
    ensures f / (2 * m) == f / 2 / m && f % (2 * m) == 2 * (f / 2 % m) + f % 2
  {
    var q, r := f / 2 / m, f / 2 % m;
    Double(q, m, r, f);
    DivMod(f, 2 * m, q, 2 * r + f % 2);
  }

  lemma Double(q: nat, m: nat, r: nat, f: nat)
    requires f / 2 == q * m + r
    ensures f == q * (2 * m) + (2 * r + f % 2)
  {
    assert q * (2 * m) == 2 * (q * m);
  }

  lemma BitAbove(f: nat, i: nat)
    ensures Bit(f, i + 1) == Bit(f / 2, i)
  {
    HalfFirst(f, Pow2(i));
  }

  lemma BitZero(f: nat)
    ensures Bit(f, 0) == f % 2
  {
  }

  // ----- Sequences of bytes

  lemma SliceJoin(s: seq<byte>, a: nat, b: nat, c: nat)
    requires a <= b <= c <= |s|
    ensures s[a..c] == s[a..b] + s[b..c]
  {
  }

  lemma Associate(a: seq<byte>, b: seq<byte>, c: seq<byte>)
    ensures (a + b) + c == a + (b + c)
  {
  }
}

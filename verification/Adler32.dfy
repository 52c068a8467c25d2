/** adler32: the sums are reduced only every NMAX bytes, sixteen bytes at a time. */
module Adler32 {
  import opened Bytes

  const BASE := 65521
  const NMAX := 5000

  // ----- The checksum of sections 2.2 and 9 of RFC 1950, reduced at every byte

  function Sums(buf: seq<byte>): (s: (nat, nat))
    ensures s.0 < BASE && s.1 < BASE
  {
    if buf == [] then (1, 0)
    else
      var (a, b) := Sums(buf[..|buf| - 1]);
      var a' := (a + buf[|buf| - 1]) % BASE;
      (a', (b + a') % BASE)
  }

  function Checksum(buf: seq<byte>): uint32 {
    var (a, b) := Sums(buf);
    0x1_0000 * b + a
  }

  /** One plus the bytes. */
  function Total(buf: seq<byte>): nat {
    if buf == [] then 1 else Total(buf[..|buf| - 1]) + buf[|buf| - 1]
  }

  /** Each byte counted once for every byte from it to the end. */
  function Weighted(buf: seq<byte>): nat {
    if buf == [] then 0 else buf[0] as int * |buf| + Weighted(buf[1..])
  }

  lemma {:induction false} WeightedSnoc(buf: seq<byte>, b: byte)
    ensures Weighted(buf + [b]) + 1 == Weighted(buf) + Total(buf + [b])
  {
    assert (buf + [b])[..|buf|] == buf;
    if buf != [] {
      assert (buf + [b])[1..] == buf[1..] + [b];
      WeightedSnoc(buf[1..], b);
      assert (buf[1..] + [b])[..|buf| - 1] == buf[1..];
      TotalFront(buf);
      assert buf[0] as int * (|buf| + 1) == buf[0] as int * |buf| + buf[0];
    }
  }

  lemma {:induction false} TotalFront(buf: seq<byte>)
    requires buf != []
    ensures Total(buf) == buf[0] + Total(buf[1..])
  {
    if |buf| > 1 {
      var init := buf[..|buf| - 1];
      TotalFront(init);
      assert buf[1..][..|buf| - 2] == init[1..];
    }
  }

  lemma {:induction false} SumsAreWeighted(buf: seq<byte>)
    ensures Sums(buf).0 == Total(buf) % BASE
    ensures Sums(buf).1 == (|buf| + Weighted(buf)) % BASE
  {
    hide Weighted;
    if buf == [] {
      NothingWeighted();
    } else {
      var init, b := buf[..|buf| - 1], buf[|buf| - 1];
      assert buf == init + [b];
      SumsAreWeighted(init);
      WeightedSnoc(init, b);
      OneMore(Total(init), |init| + Weighted(init), b);
    }
  }

  lemma NothingWeighted()
    ensures Weighted([]) == 0
  {
  }

  lemma OneMore(t: nat, w: nat, b: byte)
    ensures (t % BASE + b) % BASE == (t + b) % BASE
    ensures (w % BASE + (t + b) % BASE) % BASE == (w + t + b) % BASE
  {
    AddReduced(t, b);
    AddReduced(w, (t + b) % BASE);
    AddReduced(t + b, w);
  }

  /** The high half of the checksum is the position-weighted sum, the low half the plain sum. */
  lemma ChecksumIsWeightedSum(buf: seq<byte>)
    ensures Checksum(buf) / 0x1_0000 == (|buf| + Weighted(buf)) % 65521
    ensures Checksum(buf) % 0x1_0000 == Total(buf) % 65521
  {
    SumsAreWeighted(buf);
    DivMod(Checksum(buf), 0x1_0000, Sums(buf).1, Sums(buf).0);
  }

  lemma AddReduced(a: nat, b: nat)
    ensures (a % BASE + b) % BASE == (a + b) % BASE
  {
  }

  // ----- Deferred reduction

  function Triangle(m: nat): nat {
    if m == 0 then 0 else Triangle(m - 1) + m
  }

  lemma {:induction false} TriangleClosed(m: nat)
    ensures 2 * Triangle(m) == m * (m + 1)
  {
    if m > 0 {
      TriangleClosed(m - 1);
    }
  }

  lemma {:induction false} TriangleMonotone(m: nat, n: nat)
    requires m <= n
    ensures Triangle(m) <= Triangle(n)
  {
    if m < n {
      TriangleMonotone(m, n - 1);
    }
  }

  /** The sums after the first `p` bytes, the last `m` of them not yet reduced. */
  ghost predicate Deferred(buf: seq<byte>, p: nat, m: nat, s1: nat, s2: nat)
    requires p <= |buf|
  {
    && s1 <= BASE - 1 + 255 * m
    && s2 <= (BASE - 1) * (m + 1) + 255 * Triangle(m)
    && s1 % BASE == Sums(buf[..p]).0
    && s2 % BASE == Sums(buf[..p]).1
  }

  /** Up to NMAX unreduced bytes the sums stay below 2^32. */
  lemma DeferredFits(buf: seq<byte>, p: nat, m: nat, s1: nat, s2: nat)
    requires p <= |buf| && m <= NMAX && Deferred(buf, p, m, s1, s2)
    ensures s1 < 0x1_0000_0000 && s2 < 0x1_0000_0000
  {
    TriangleMonotone(m, NMAX);
    TriangleClosed(NMAX);
  }

  lemma DeferredStep(buf: seq<byte>, p: nat, m: nat, s1: nat, s2: nat)
    requires p < |buf| && Deferred(buf, p, m, s1, s2)
    ensures Deferred(buf, p + 1, m + 1, s1 + buf[p], s2 + (s1 + buf[p]))
  {
    hide Triangle;
    TriangleNext(m);
    var t1 := s1 + buf[p];
    assert buf[..p + 1][..p] == buf[..p];
    AddReduced(s1, buf[p]);
    AddReduced(s2, t1);
    AddReduced(t1, s2 % BASE);
  }

  lemma TriangleNext(m: nat)
    ensures Triangle(m + 1) == Triangle(m) + m + 1
  {
  }

  /** s1 += buf[i]; s2 += s1, in 32 bits. */
  method Do1(buf: seq<byte>, i: nat, s1: uint32, s2: uint32, ghost m: nat) returns (t1: uint32, t2: uint32)
    requires i < |buf| && m < NMAX && Deferred(buf, i, m, s1, s2)
    ensures Deferred(buf, i + 1, m + 1, t1, t2)
  {
    hide Deferred;
    DeferredStep(buf, i, m, s1, s2);
    DeferredFits(buf, i + 1, m + 1, s1 + buf[i], s2 + (s1 + buf[i]));
    t1 := s1 + buf[i];
    t2 := s2 + t1;
  }

  method Do2(buf: seq<byte>, i: nat, s1: uint32, s2: uint32, ghost m: nat) returns (t1: uint32, t2: uint32)
    requires i + 2 <= |buf| && m + 2 <= NMAX && Deferred(buf, i, m, s1, s2)
    ensures Deferred(buf, i + 2, m + 2, t1, t2)
  {
    hide Deferred;
    t1, t2 := Do1(buf, i, s1, s2, m);
    t1, t2 := Do1(buf, i + 1, t1, t2, m + 1);
  }

  method Do4(buf: seq<byte>, i: nat, s1: uint32, s2: uint32, ghost m: nat) returns (t1: uint32, t2: uint32)
    requires i + 4 <= |buf| && m + 4 <= NMAX && Deferred(buf, i, m, s1, s2)
    ensures Deferred(buf, i + 4, m + 4, t1, t2)
  {
    hide Deferred;
    t1, t2 := Do2(buf, i, s1, s2, m);
    t1, t2 := Do2(buf, i + 2, t1, t2, m + 2);
  }

  method Do8(buf: seq<byte>, i: nat, s1: uint32, s2: uint32, ghost m: nat) returns (t1: uint32, t2: uint32)
    requires i + 8 <= |buf| && m + 8 <= NMAX && Deferred(buf, i, m, s1, s2)
    ensures Deferred(buf, i + 8, m + 8, t1, t2)
  {
    hide Deferred;
    t1, t2 := Do4(buf, i, s1, s2, m);
    t1, t2 := Do4(buf, i + 4, t1, t2, m + 4);
  }

  method Do16(buf: seq<byte>, i: nat, s1: uint32, s2: uint32, ghost m: nat) returns (t1: uint32, t2: uint32)
    requires i + 16 <= |buf| && m + 16 <= NMAX && Deferred(buf, i, m, s1, s2)
    ensures Deferred(buf, i + 16, m + 16, t1, t2)
  {
    hide Deferred;
    t1, t2 := Do8(buf, i, s1, s2, m);
    t1, t2 := Do8(buf, i + 8, t1, t2, m + 8);
  }

  /** The checksum of the first `length` bytes; nothing for a negative length. */
  method Adler32(buf: seq<byte>, length: int) returns (r: uint32)
    requires length <= |buf|
    ensures r == Checksum(if length < 0 then [] else buf[..length])
  {
    hide Triangle, Sums;
    var s1: uint32, s2: uint32 := 1, 0;
    var len, p: nat := length, 0;
    NothingSummed(buf);
    while len > 0
      invariant if length < 0 then p == 0 && len == length else len >= 0 && p + len == length
      invariant p <= |buf|
      invariant s1 < BASE && s2 < BASE && Deferred(buf, p, 0, s1, s2)
    {
      var k := if len < NMAX then len else NMAX;
      ghost var m: nat := 0;
      len := len - k;
      ghost var stop := p + k;
      while k >= 16
        invariant 0 <= k && p + k == stop && m + k <= NMAX && Deferred(buf, p, m, s1, s2)
      {
        s1, s2 := Do16(buf, p, s1, s2, m);
        p, k, m := p + 16, k - 16, m + 16;
      }
      while k != 0
        invariant 0 <= k && p + k == stop && m + k <= NMAX && Deferred(buf, p, m, s1, s2)
        decreases k
      {
        s1, s2 := Do1(buf, p, s1, s2, m);
        p, k, m := p + 1, k - 1, m + 1;
      }
      DeferredReduced(buf, p, m, s1, s2);
      s1 := s1 % BASE;
      s2 := s2 % BASE;
    }
    r := 0x1_0000 * s2 + s1;
  }

  lemma NothingSummed(buf: seq<byte>)
    ensures Deferred(buf, 0, 0, 1, 0) && buf[..0] == []
  {
  }

  lemma DeferredReduced(buf: seq<byte>, p: nat, m: nat, s1: nat, s2: nat)
    requires p <= |buf| && Deferred(buf, p, m, s1, s2)
    ensures Deferred(buf, p, 0, s1 % BASE, s2 % BASE)
  {
  }
}

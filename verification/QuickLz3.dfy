/** QuickLZ level 3: a match names its distance. The compressor keeps several earlier
    places per hash bucket, entered round-robin under an eight-bit counter that wraps. */
module QuickLz3 {
  import opened Bytes
  import opened ControlWords
  import opened QuickLzTokens

  const MAX_OFFSET := 131071
  const COUNTER := 256

  /** QLZ_HASH_VALUES and QLZ_POINTERS: powers of two, at most 256 pointers. */
  datatype Dimensions = Dimensions(hashValues: nat, pointers: nat)
  type Geometry = g: Dimensions | g.hashValues > 0 && g.pointers > 0 && COUNTER % g.pointers == 0
    witness Dimensions(4096, 16)

  // ----- The table as a function of the text

  /** Number of places before `n` whose bytes fall into bucket `h`. */
  function Count(x: seq<byte>, g: Geometry, h: nat, n: nat): (c: nat)
    requires n + 2 <= |x|
    ensures c <= n
  {
    if n == 0 then 0 else Count(x, g, h, n - 1) + if HashAt(x, n - 1, g.hashValues) == h then 1 else 0
  }

  /** Pointer `k` of bucket `h` after all places before `n` have been entered in order:
      the last of them whose number in the bucket is `k` modulo the pointers. */
  function Slot(x: seq<byte>, g: Geometry, h: nat, n: nat, k: nat): (p: int)
    requires n + 2 <= |x|
    ensures -1 <= p < n
    ensures 0 <= p ==> HashAt(x, p, g.hashValues) == h
  {
    if n == 0 then -1
    else if HashAt(x, n - 1, g.hashValues) == h && Count(x, g, h, n - 1) % g.pointers == k then n - 1
    else Slot(x, g, h, n - 1, k)
  }

  /** The number in the bucket is the size of the set of earlier places with that hash. */
  lemma {:induction false} CountIsSize(x: seq<byte>, g: Geometry, h: nat, n: nat)
    requires n + 2 <= |x|
    ensures Count(x, g, h, n) == |set p: nat | p < n && HashAt(x, p, g.hashValues) == h|
  {
    hide HashAt;
    var ps := set p: nat | p < n && HashAt(x, p, g.hashValues) == h;
    if n > 0 {
      var qs := set p: nat | p < n - 1 && HashAt(x, p, g.hashValues) == h;
      CountIsSize(x, g, h, n - 1);
      assert ps == qs + if HashAt(x, n - 1, g.hashValues) == h then {n - 1} else {};
    }
  }

  /** Place `p` has been entered over pointer `k` of bucket `h`. */
  predicate EnteredAs(x: seq<byte>, g: Geometry, h: nat, k: nat, p: nat)
    requires p + 3 <= |x|
  {
    HashAt(x, p, g.hashValues) == h && Count(x, g, h, p) % g.pointers == k
  }

  /** A pointer holds the last place entered over it, and none only if there was none. */
  lemma {:induction false} SlotIsLast(x: seq<byte>, g: Geometry, h: nat, n: nat, k: nat)
    requires n + 2 <= |x|
    ensures var o := Slot(x, g, h, n, k);
            && (o >= 0 ==> EnteredAs(x, g, h, k, o))
            && forall p: nat :: o < p < n ==> !EnteredAs(x, g, h, k, p)
  {
    hide HashAt, Count;
    if n > 0 {
      SlotIsLast(x, g, h, n - 1, k);
    }
  }

  /** The pointers that the counter vouches for have been set. */
  lemma {:induction false} SlotFilled(x: seq<byte>, g: Geometry, h: nat, n: nat, k: nat)
    requires n + 2 <= |x| && k < g.pointers && k < Count(x, g, h, n)
    ensures Slot(x, g, h, n, k) >= 0
  {
    hide HashAt;
    SmallRemainder(k, g.pointers);
    if n > 0 && k < Count(x, g, h, n - 1) {
      SlotFilled(x, g, h, n - 1, k);
    }
  }

  lemma SmallRemainder(k: nat, m: nat)
    requires k < m
    ensures k % m == k
  {
  }

  // ----- The choice

  /** Pointer `k` is looked at and agrees in three bytes, far enough back. */
  predicate Candidate(x: seq<byte>, g: Geometry, d: nat, k: nat)
    requires MainPart(x, d)
  {
    var h := HashAt(x, d, g.hashValues);
    && k < g.pointers && k < Count(x, g, h, d) % COUNTER
    && var o := Slot(x, g, h, d, k);
       0 <= o < d - MINOFFSET && Fetch(x, o) == Fetch(x, d)
  }

  function CandidateAt(x: seq<byte>, g: Geometry, d: nat, k: nat): (o: nat)
    requires MainPart(x, d) && Candidate(x, g, d, k)
    ensures o + MINOFFSET < d
  {
    Slot(x, g, HashAt(x, d, g.hashValues), d, k)
  }

  function MatchExtent(x: seq<byte>, o: nat, d: nat): (n: nat)
    requires MainPart(x, d) && o <= d
    ensures 3 <= n <= Cap(x, d)
  {
    Extent(x, o, d, 3, Cap(x, d))
  }

  /** The best of the first `n` pointers: longest, then nearest. Length 0 for none. */
  function Best(x: seq<byte>, g: Geometry, d: nat, n: nat): (r: (nat, nat))
    requires MainPart(x, d)
    ensures r.1 != 0 ==> r.1 >= 3 && r.0 + MINOFFSET < d
    ensures r.1 <= Cap(x, d)
  {
    if n == 0 then (0, 0)
    else
      var (o, len) := Best(x, g, d, n - 1);
      if Candidate(x, g, d, n - 1) then
        var p := CandidateAt(x, g, d, n - 1);
        var m := MatchExtent(x, p, d);
        if m > len || (m == len && p > o) then (p, m) else (o, len)
      else (o, len)
  }

  /** The token the compressor emits at position `d`. */
  function Choose(x: seq<byte>, g: Geometry, d: nat): Token
    requires d < |x|
  {
    if !MainPart(x, d) then Literal(x[d])
    else
      var (o, len) := Best(x, g, d, g.pointers);
      if len > 2 && d - o < MAX_OFFSET then Match(d - o, len) else Literal(x[d])
  }

  ghost predicate Parse(x: seq<byte>, g: Geometry, ts: seq<Token>) {
    forall i :: 0 <= i < |ts| ==> Span(ts[..i]) < |x| && ts[i] == Choose(x, g, Span(ts[..i]))
  }

  lemma ParseSnoc(x: seq<byte>, g: Geometry, ts: seq<Token>)
    requires Parse(x, g, ts) && Span(ts) < |x|
    ensures Parse(x, g, ts + [Choose(x, g, Span(ts))])
  {
    hide Choose;
    var us := ts + [Choose(x, g, Span(ts))];
    forall i | 0 <= i < |us| ensures Span(us[..i]) < |x| && us[i] == Choose(x, g, Span(us[..i])) {
      if i < |ts| {
        assert us[..i] == ts[..i];
        assert ts[i] == Choose(x, g, Span(ts[..i]));
      } else {
        assert us[..i] == ts;
      }
    }
  }

  /** No candidate among the first `n` pointers agrees longer than `len`, or as long and
      from nearer by than `o`. */
  ghost predicate Unbeaten(x: seq<byte>, g: Geometry, d: nat, n: nat, o: nat, len: nat)
    requires MainPart(x, d)
  {
    forall k :: 0 <= k < n && Candidate(x, g, d, k) ==>
      var p := CandidateAt(x, g, d, k);
      MatchExtent(x, p, d) < len || (MatchExtent(x, p, d) == len && p <= o)
  }

  ghost predicate IsCandidate(x: seq<byte>, g: Geometry, d: nat, n: nat, o: nat)
    requires MainPart(x, d)
  {
    exists k :: 0 <= k < n && Candidate(x, g, d, k) && CandidateAt(x, g, d, k) == o
  }

  /** The best pointer is a candidate taken at its full agreement, and unbeaten; there is
      none only if no pointer is a candidate. */
  lemma {:induction false} BestIsBest(x: seq<byte>, g: Geometry, d: nat, n: nat)
    requires MainPart(x, d)
    ensures var (o, len) := Best(x, g, d, n);
            && (len > 0 ==> IsCandidate(x, g, d, n, o) && len == MatchExtent(x, o, d))
            && (len == 0 ==> forall k :: 0 <= k < n ==> !Candidate(x, g, d, k))
            && Unbeaten(x, g, d, n, o, len)
  {
    hide Candidate, CandidateAt, MatchExtent;
    if n > 0 {
      BestIsBest(x, g, d, n - 1);
    }
  }

  /** A candidate's extent is the longest agreement below the cap. */
  lemma CandidateExtent(x: seq<byte>, g: Geometry, d: nat, n: nat, o: nat)
    requires MainPart(x, d) && IsCandidate(x, g, d, n, o)
    ensures o + MINOFFSET < d
    ensures var len := MatchExtent(x, o, d);
            Copies(x, o, d, len) && (len < Cap(x, d) ==> x[o + len] != x[d + len])
  {
    hide HashAt, Slot, Count;
    SameFetch(x, o, d);
    ExtentLongest(x, o, d, 3, Cap(x, d));
  }

  /** A pointer is a candidate exactly when the counter vouches for it and it holds a place
      three or more bytes back with the same three bytes. */
  lemma CandidateIff(x: seq<byte>, g: Geometry, d: nat, k: nat)
    requires MainPart(x, d)
    ensures var h := HashAt(x, d, g.hashValues); var o := Slot(x, g, h, d, k);
            && (Candidate(x, g, d, k) <==>
                && k < g.pointers && k < Count(x, g, h, d) % 256 && 0 <= o <= d - 3
                && x[o] == x[d] && x[o + 1] == x[d + 1] && x[o + 2] == x[d + 2])
            && (Candidate(x, g, d, k) ==> CandidateAt(x, g, d, k) == o)
  {
    hide HashAt, Count, Fetch;
    var o := Slot(x, g, HashAt(x, d, g.hashValues), d, k);
    if 0 <= o <= d - 3 {
      SameThree(x, o, d);
    }
  }

  /** Every match of the parse is an unbeaten candidate less than 131071 bytes back, taken
      as far as it agrees: up to 255 bytes and to the last four of the text. */
  lemma MatchIsBest(x: seq<byte>, g: Geometry, ts: seq<Token>, i: nat)
    requires Parse(x, g, ts) && i < |ts| && ts[i].Match?
    ensures var d, t := Span(ts[..i]), ts[i];
            && d + 11 <= |x| && t.ref < 131071 && t.ref <= d
            && IsCandidate(x, g, d, g.pointers, d - t.ref)
            && Unbeaten(x, g, d, g.pointers, d - t.ref, t.len)
            && t.len == MatchExtent(x, d - t.ref, d)
            && Copies(x, d - t.ref, d, t.len)
            && (t.len == 255 || d + t.len + 4 == |x| || x[d - t.ref + t.len] != x[d + t.len])
  {
    hide Best, IsCandidate, Unbeaten, MatchExtent;
    var d := Span(ts[..i]);
    assert ts[i] == Choose(x, g, d);
    BestIsBest(x, g, d, g.pointers);
    CandidateExtent(x, g, d, g.pointers, d - ts[i].ref);
  }

  /** Where the parse has a literal although pointer `k` is a candidate, a candidate that
      agrees as long lies 131071 bytes back or more. */
  lemma LiteralOnlyWhenFar(x: seq<byte>, g: Geometry, ts: seq<Token>, i: nat, k: nat) returns (j: nat)
    requires Parse(x, g, ts) && i < |ts| && ts[i].Literal? && Span(ts[..i]) + 11 <= |x|
    requires Candidate(x, g, Span(ts[..i]), k)
    ensures var d := Span(ts[..i]);
            && Candidate(x, g, d, j) && CandidateAt(x, g, d, j) + 131071 <= d
            && MatchExtent(x, CandidateAt(x, g, d, j), d) >= MatchExtent(x, CandidateAt(x, g, d, k), d)
  {
    hide Best, MatchExtent, HashAt, Slot, Count;
    var d := Span(ts[..i]);
    assert ts[i] == Choose(x, g, d);
    BestIsBest(x, g, d, g.pointers);
    var (o, len) := Best(x, g, d, g.pointers);
    j :| 0 <= j < g.pointers && Candidate(x, g, d, j) && CandidateAt(x, g, d, j) == o;
  }

  // ----- What a decoder needs

  /** Every match copies what stands `ref` bytes back. */
  ghost predicate Resolves(x: seq<byte>, ts: seq<Token>) {
    forall i :: 0 <= i < |ts| && ts[i].Match? ==> ResolvesAt(x, ts, i)
  }

  ghost predicate ResolvesAt(x: seq<byte>, ts: seq<Token>, i: nat)
    requires i < |ts| && ts[i].Match?
  {
    var d := Span(ts[..i]);
    && MINOFFSET < ts[i].ref <= d && ts[i].ref < MAX_OFFSET
    && d + ts[i].len <= |x|
    && Copies(x, d - ts[i].ref, d, ts[i].len)
  }

  /** Whatever the table holds, the tokens spell the text. */
  lemma ParseResolves(x: seq<byte>, g: Geometry, ts: seq<Token>)
    requires Parse(x, g, ts)
    ensures Resolves(x, ts)
    ensures Span(ts) == |x| ==> Tiles(x, ts)
  {
    hide Best, IsCandidate, Unbeaten, MatchExtent;
    forall i | 0 <= i < |ts|
      ensures Fits(x, Span(ts[..i]), ts[i]) && (ts[i].Match? ==> ResolvesAt(x, ts, i))
    {
      var d := Span(ts[..i]);
      assert ts[i] == Choose(x, g, d);
      if MainPart(x, d) {
        BestIsBest(x, g, d, g.pointers);
        if ts[i].Match? {
          CandidateExtent(x, g, d, g.pointers, Best(x, g, d, g.pointers).0);
        }
      }
    }
  }

  // ----- Token bytes

  function CodeValue(offset: nat, len: MatchLen): (nat, nat) {
    if len == 3 && offset <= 63 then (4 * offset, 1)
    else if len == 3 && offset <= 16383 then (4 * offset + 1, 2)
    else if len <= 18 && offset <= 1023 then (4 * (len - 3) + 64 * offset + 2, 2)
    else if len <= 33 then (4 * (len - 2) + 128 * offset + 3, 3)
    else (128 * (len - 3) + 32768 * offset + 3, 4)
  }

  function Code(t: Token): (c: Chunk)
    ensures c.isMatch == t.Match?
    ensures 1 <= |c.body| <= 4 && |c.body| <= Len(t)
  {
    match t
    case Literal(b) => Chunk(false, [b])
    case Match(offset, len) =>
      var (v, n) := CodeValue(offset, len);
      Chunk(true, Le(v, n))
  }

  function Codes(ts: seq<Token>): (cs: seq<Chunk>)
    ensures |cs| == |ts|
    ensures forall i :: 0 <= i < |cs| ==> |cs[i].body| >= 1
  {
    seq(|ts|, i requires 0 <= i < |ts| => Code(ts[i]))
  }

  lemma CodesSnoc(ts: seq<Token>, t: Token)
    ensures Codes(ts + [t]) == Codes(ts) + [Code(t)]
  {
  }

  /** The decoder's reading of a match token: distance, length, bytes used. */
  function ReadMatch(fetch: nat): (r: (nat, nat, nat))
    ensures 1 <= r.2 <= 4
  {
    if fetch % 4 == 0 then (fetch % 0x100 / 4, 3, 1)
    else if fetch / 2 % 2 == 0 then (fetch % 0x1_0000 / 4, 3, 2)
    else if fetch % 2 == 0 then (fetch % 0x1_0000 / 64, fetch / 4 % 16 + 3, 2)
    else if fetch % 128 != 3 then (fetch / 128 % 0x2_0000, fetch / 4 % 32 + 2, 3)
    else (fetch / 0x8000, fetch / 128 % 256 + 3, 4)
  }

  /** 256 to the `n`. */
  function Radix(n: nat): nat
    requires n <= 4
  {
    match n
    case 0 => 1
    case 1 => 0x100
    case 2 => 0x1_0000
    case 3 => 0x100_0000
    case 4 => 0x1_0000_0000
  }

  lemma {:induction false} FromLeSplit(w: seq<byte>, n: nat)
    requires n <= |w| && n <= 4
    ensures FromLe(w) == FromLe(w[..n]) + Radix(n) * FromLe(w[n..])
  {
    if n == 0 {
      assert w[0..] == w;
    } else {
      FromLeSplit(w[1..], n - 1);
      assert w[1..][n - 1..] == w[n..] && w[1..][..n - 1] == w[..n][1..];
    }
  }

  /** The five forms of a match token, told apart by their low bits and undone. */
  lemma ReadDigits(offset: nat, len: MatchLen, hi: nat)
    requires offset < MAX_OFFSET
    ensures var (v, n) := CodeValue(offset, len);
            && 1 <= n <= 4 && v < Radix(n)
            && (n < 4 || hi == 0 ==> ReadMatch(v + Radix(n) * hi) == (offset, len, n))
  {
    hide ReadMatch;
    if len == 3 && offset <= 63 {
      ReadForm1(offset, hi);
    } else if len == 3 && offset <= 16383 {
      ReadForm2(offset, hi);
    } else if len <= 18 && offset <= 1023 {
      ReadForm3(offset, len, hi);
    } else if len <= 33 {
      ReadForm4(offset, len, hi);
    } else {
      ReadForm5(offset, len);
    }
  }

  lemma ReadForm1(offset: nat, hi: nat)
    requires offset <= 63
    ensures ReadMatch(4 * offset + 0x100 * hi) == (offset, 3, 1)
  {
    var f := 4 * offset + 0x100 * hi;
    DivMod(f, 4, offset + 0x40 * hi, 0);
    DivMod(f, 0x100, hi, 4 * offset);
    DivMod(4 * offset, 4, offset, 0);
  }

  lemma ReadForm2(offset: nat, hi: nat)
    requires offset <= 16383
    ensures ReadMatch(4 * offset + 1 + 0x1_0000 * hi) == (offset, 3, 2)
  {
    var f := 4 * offset + 1 + 0x1_0000 * hi;
    DivMod(4 * offset + 1, 4, offset, 1);
    DivMod(f, 4, offset + 0x4000 * hi, 1);
    DivMod(f, 2, 2 * offset + 0x8000 * hi, 1);
    DivMod(2 * offset + 0x8000 * hi, 2, offset + 0x4000 * hi, 0);
    DivMod(f, 0x1_0000, hi, 4 * offset + 1);
  }

  lemma ReadForm3(offset: nat, len: nat, hi: nat)
    requires offset <= 1023 && 3 <= len <= 18
    ensures ReadMatch(4 * (len - 3) + 64 * offset + 2 + 0x1_0000 * hi) == (offset, len, 2)
  {
    var f := 4 * (len - 3) + 64 * offset + 2 + 0x1_0000 * hi;
    var k := 16 * offset + 0x4000 * hi;
    DivMod(f, 4, len - 3 + k, 2);
    DivMod(f, 2, 2 * (len - 3 + k) + 1, 0);
    DivMod(2 * (len - 3 + k) + 1, 2, len - 3 + k, 1);
    DivMod(len - 3 + k, 16, offset + 0x400 * hi, len - 3);
    DivMod(f, 0x1_0000, hi, 4 * (len - 3) + 64 * offset + 2);
    DivMod(4 * (len - 3) + 64 * offset + 2, 64, offset, 4 * (len - 3) + 2);
  }

  lemma ReadForm4(offset: nat, len: nat, hi: nat)
    requires offset < MAX_OFFSET && 3 <= len <= 33
    ensures ReadMatch(4 * (len - 2) + 128 * offset + 3 + 0x100_0000 * hi) == (offset, len, 3)
  {
    var f := 4 * (len - 2) + 128 * offset + 3 + 0x100_0000 * hi;
    var k := 32 * offset + 0x40_0000 * hi;
    LowBitsSet(len - 2 + k);
    DivMod(f, 128, offset + 0x2_0000 * hi, 4 * (len - 2) + 3);
    DivMod(offset + 0x2_0000 * hi, 0x2_0000, hi, offset);
    DivMod(len - 2 + k, 32, offset + 0x2_0000 * hi, len - 2);
  }

  lemma ReadForm5(offset: nat, len: nat)
    requires offset < MAX_OFFSET && 33 < len <= 255
    ensures ReadMatch(128 * (len - 3) + 0x8000 * offset + 3) == (offset, len, 4)
  {
    var f := 128 * (len - 3) + 0x8000 * offset + 3;
    LowBitsSet(32 * (len - 3) + 0x2000 * offset);
    DivMod(f, 128, len - 3 + 0x100 * offset, 3);
    DivMod(len - 3 + 0x100 * offset, 0x100, offset, len - 3);
    DivMod(f, 0x8000, offset, 128 * (len - 3) + 3);
  }

  /** The two low bits of forms four and five. */
  lemma LowBitsSet(k: nat)
    ensures (4 * k + 3) % 4 == 3 && (4 * k + 3) / 4 == k
    ensures (4 * k + 3) / 2 % 2 == 1 && (4 * k + 3) % 2 == 1
  {
    DivMod(4 * k + 3, 2, 2 * k + 1, 1);
    DivMod(2 * k + 1, 2, k, 1);
  }

  /** No number that reads back as the same match is stored in fewer bytes. */
  lemma CodeIsShortest(t: Token, v: nat)
    requires t.Match? && t.ref < MAX_OFFSET
    requires ReadMatch(v).0 == t.ref && ReadMatch(v).1 == t.len
    ensures |Code(t).body| <= ReadMatch(v).2
  {
  }

  /** The bytes after the token do not disturb its reading. */
  lemma ReadsWhatWasCoded(s: seq<byte>, src: nat, t: Token)
    requires t.Match? && t.ref < MAX_OFFSET
    requires src + 4 <= |s|
    requires s[src..src + |Code(t).body|] == Code(t).body
    ensures ReadMatch(FastRead(s, src, 4)) == (t.ref, t.len, |Code(t).body|)
  {
    hide ReadMatch, Le, FromLe;
    var (v, n) := CodeValue(t.ref, t.len);
    var w := s[src..src + 4];
    assert w[..n] == s[src..src + n] == Le(v, n);
    ReadDigits(t.ref, t.len, FromLe(w[n..]));
    FromLeSplit(w, n);
    RadixPow2(n);
    FromLeOfLe(v, n);
    if n == 4 {
      assert w[4..] == [];
      FromLeNothing();
    }
  }

  lemma RadixPow2(n: nat)
    requires n <= 4
    ensures Radix(n) == Pow2(8 * n)
  {
    Pow2Constants();
  }

  lemma FromLeNothing()
    ensures FromLe([]) == 0
  {
  }
}

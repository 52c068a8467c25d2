/** decompress_lzss: a 4096-byte ring and a flag word that counts its own bits, against
    plain LZ77 over the whole history. */
module Lzss {
  import opened Bytes

  const N := 4096
  const F := 18
  const THRESHOLD := 2

  type RingIndex = i: int | 0 <= i < N
  type CopyLength = n: int | THRESHOLD < n <= F witness F

  datatype Token = Literal(value: byte) | Reference(start: RingIndex, len: CopyLength)

  // ----- The stream as tokens

  /** What the reference bytes mean. */
  function MakeReference(i: byte, j: byte): Token {
    Reference(i + 0x100 * (j / 16), j % 16 + THRESHOLD + 1)
  }

  /** The tokens of a stream when `left` flag bits are still in hand, the next one the
      lowest bit of `flags`. A token cut short by the end of the stream is dropped. */
  function Tokens(src: seq<byte>, flags: nat, left: nat): seq<Token> {
    if src == [] then []
    else if left == 0 then Tokens(src[1..], src[0], 8)
    else if flags % 2 == 1 then [Literal(src[0])] + Tokens(src[1..], flags / 2, left - 1)
    else if |src| == 1 then []
    else [MakeReference(src[0], src[1])] + Tokens(src[2..], flags / 2, left - 1)
  }

  /** The first eight tokens are literals where the bits of the flag byte are set, the lowest
      bit first. */
  lemma {:induction false} FlagsLowestFirst(src: seq<byte>, flags: nat, left: nat, k: nat)
    requires k < left && k < |Tokens(src, flags, left)|
    ensures Tokens(src, flags, left)[k].Literal? <==> Bit(flags, k) == 1
    decreases k
  {
    hide Bit;
    if k == 0 {
      BitZero(flags);
    } else {
      BitAbove(flags, k - 1);
      FlagsLowestFirst(src[if flags % 2 == 1 then 1 else 2..], flags / 2, left - 1, k - 1);
    }
  }

  // ----- LZ77 over the whole history

  /** How far back a reference reaches when the history has `m` bytes, the first N of
      them the ring before decoding. */
  function Distance(m: nat, start: RingIndex): (d: nat)
    ensures 1 <= d <= N
  {
    (m + N - F - start - 1) % N + 1
  }

  function CopyBack(h: seq<byte>, dist: nat, n: nat): (r: seq<byte>)
    requires 1 <= dist <= |h|
    ensures |r| == |h| + n && h <= r
    decreases n
  {
    if n == 0 then h else CopyBack(h + [h[|h| - dist]], dist, n - 1)
  }

  function Apply(h: seq<byte>, t: Token): (r: seq<byte>)
    requires |h| >= N
    ensures h <= r && |r| == |h| + Length(t)
  {
    match t
    case Literal(b) => h + [b]
    case Reference(i, len) => CopyBack(h, Distance(|h|, i), len)
  }

  function Length(t: Token): nat {
    if t.Literal? then 1 else t.len
  }

  function TotalLength(ts: seq<Token>): nat {
    if ts == [] then 0 else Length(ts[0]) + TotalLength(ts[1..])
  }

  function Expand(h: seq<byte>, ts: seq<Token>): (r: seq<byte>)
    requires |h| >= N
    ensures h <= r && |r| == |h| + TotalLength(ts)
    decreases |ts|
  {
    if ts == [] then h else Expand(Apply(h, ts[0]), ts[1..])
  }

  /** The history before the first token: the cells that are never set, then spaces. */
  function Window(unset: seq<byte>): (h: seq<byte>)
    requires |unset| == F
    ensures |h| == N
  {
    unset + seq(N - F, _ => ' ' as int)
  }

  // ----- The decoder

  /** The ring holds the last N bytes of the history; `r` is where the next byte goes. */
  ghost predicate Mirrors(ring: seq<byte>, h: seq<byte>, r: nat) {
    && |ring| >= N && |h| >= N
    && r == Cell(|h|)
    && forall k :: |h| - N <= k < |h| ==> ring[Cell(k)] == h[k]
  }

  /** The ring cell of history byte `k`. */
  function Cell(k: nat): (c: nat)
    ensures c < N
  {
    (k + N - F) % N
  }

  lemma CellsDiffer(a: nat, b: nat)
    requires a < b < a + N
    ensures Cell(a) != Cell(b)
  {
    var qa, qb := (a + N - F) / N, (b + N - F) / N;
    assert a + N - F == N * qa + Cell(a) && b + N - F == N * qb + Cell(b);
  }

  lemma CellNext(k: nat)
    ensures Cell(k + 1) == (Cell(k) + 1) % N
  {
  }

  /** One more byte in the history and in the ring. */
  lemma MirrorsPush(ring: seq<byte>, h: seq<byte>, r: nat, b: byte)
    requires Mirrors(ring, h, r)
    ensures Mirrors(ring[r := b], h + [b], (r + 1) % N)
  {
    hide Cell;
    CellNext(|h|);
    forall k | |h| + 1 - N <= k < |h| + 1 ensures ring[r := b][Cell(k)] == (h + [b])[k] {
      if k < |h| {
        CellsDiffer(k, |h|);
      }
    }
  }

  /** The cell a reference reads for its byte `k` is the one `Distance` back. */
  lemma ReferenceCell(m: nat, start: RingIndex, k: nat)
    requires m >= N
    ensures (start + k) % N == Cell(m + k - Distance(m, start))
  {
    var u := m + N - F - start - 1;
    var q := u / N;
    assert u == N * q + u % N;
    assert m + k - Distance(m, start) + N - F == start + k + N * q;
    SameRemainder(start + k, q);
  }

  lemma SameRemainder(a: nat, q: nat)
    ensures (a + N * q) % N == a % N
  {
    DivMod(a + N * q, N, a / N + q, a % N);
  }

  // ----- The ring, cell by cell

  /** The output byte written last into a ring cell before output byte `n`; the first output
      byte goes to cell 4078. */
  function LastInto(cell: nat, n: nat): (q: int)
    ensures -1 <= q < n
  {
    if n == 0 then -1 else if (4078 + (n - 1)) % 4096 == cell then n - 1 else LastInto(cell, n - 1)
  }

  lemma {:induction false} LastIntoIs(cell: nat, n: nat, q: int)
    requires n - 4096 <= q < n && q >= -4096 && (4096 + 4078 + q) % 4096 == cell
    ensures LastInto(cell, n) == if q < 0 then -1 else q
    decreases n
  {
    if n > 0 {
      ShiftRing(n - 1);
      if q < n - 1 {
        CellsDiffer(4096 + q, 4096 + n - 1);
        LastIntoIs(cell, n - 1, q);
      }
    }
  }

  lemma ShiftRing(q: nat)
    ensures (4078 + q) % 4096 == (4096 + 4078 + q) % 4096 == Cell(4096 + q)
  {
    DivMod(4096 + 4078 + q, 4096, (4078 + q) / 4096 + 1, (4078 + q) % 4096);
  }

  lemma {:induction false} CopiedAt(h: seq<byte>, dist: nat, n: nat, k: nat)
    requires 1 <= dist <= |h| && k < n
    ensures CopyBack(h, dist, n)[|h| + k] == CopyBack(h, dist, n)[|h| + k - dist]
    decreases n
  {
    var g := h + [h[|h| - dist]];
    if k == 0 {
      assert g <= CopyBack(g, dist, n - 1);
    } else {
      CopiedAt(g, dist, n - 1, k - 1);
    }
  }

  /** Byte `k` of a reference is what its ring cell holds: the last output byte written there,
      a space where none was, and anything in the eighteen cells from 4078 on. */
  lemma ReferenceReads(unset: seq<byte>, out: seq<byte>, i: byte, j: byte, k: nat)
    requires |unset| == 18 && k < j % 16 + 3
    ensures var cell := (i + 256 * (j / 16) + k) % 4096;
            var q := LastInto(cell, |out| + k);
            var r := Apply(Window(unset) + out, MakeReference(i, j));
            && |r| == 4096 + |out| + (j % 16 + 3)
            && r[4096 + |out| + k] ==
               if q >= 0 then r[4096 + q] else if cell < 4078 then 32 else unset[cell - 4078]
  {
    hide LastInto, CopyBack, Distance, Window;
    var t, h, m := MakeReference(i, j), Window(unset) + out, |out|;
    var dist := Distance(4096 + m, t.start);
    CopiedAt(h, dist, t.len, k);
    ReferenceCell(4096 + m, t.start, k);
    var at := 4096 + m + k - dist;
    LastIntoIs(Cell(at), m + k, at - 4096);
    var r := Apply(h, t);
    assert r[at] == if at < |h| then h[at] else r[at];
    if at < 4096 {
      WindowCell(unset, at);
    }
  }

  lemma WindowCell(unset: seq<byte>, at: nat)
    requires |unset| == 18 && at < 4096
    ensures Window(unset)[at] == if Cell(at) < 4078 then 32 else unset[Cell(at) - 4078]
  {
  }

  // ----- The flag word

  /** The flag word after its shift: eight ones above the `left` bits in hand. */
  function Armed(left: nat, flags: nat): nat {
    255 * Pow2(left) + flags
  }

  /** Bit 8 is set as long as bits are in hand; shifting drops one of them. */
  lemma ArmedTest(left: nat, flags: nat)
    requires left <= 8 && flags < Pow2(left)
    ensures Armed(left, flags) / 0x100 % 2 == if left == 0 then 0 else 1
    ensures left > 0 ==> flags / 2 < Pow2(left - 1) && Armed(left, flags) / 2 == Armed(left - 1, flags / 2)
                         && Armed(left, flags) % 2 == flags % 2
  {
    if left > 0 {
      assert Armed(left, flags) == 2 * (255 * Pow2(left - 1)) + flags;
      BitEight(left, flags);
    }
  }

  lemma BitEight(left: nat, flags: nat)
    requires 1 <= left <= 8 && flags < Pow2(left)
    ensures Armed(left, flags) / 0x100 % 2 == 1
  {
    assert Pow2(1) == 2 && Pow2(2) == 4 && Pow2(3) == 8 && Pow2(4) == 16;
    assert Pow2(5) == 32 && Pow2(6) == 64 && Pow2(7) == 128 && Pow2(8) == 256;
    var half := Pow2(left - 1);
    assert Armed(left, flags) == 0x100 * (2 * half - 1) + (0x100 - 2 * half + flags);
    DivMod(Armed(left, flags), 0x100, 2 * half - 1, 0x100 - 2 * half + flags);
  }

  lemma MirrorsFirst(ring: seq<byte>, unset: seq<byte>)
    requires |ring| >= N && unset == ring[N - F..N]
    requires forall k :: 0 <= k < N - F ==> ring[k] == ' ' as int
    ensures Mirrors(ring, Window(unset), N - F)
  {
  }

  /** Put one byte in the output and in the ring. */
  method PutByte(dst: array<byte>, n: nat, ring: array<byte>, r: nat, c: byte, ghost w: seq<byte>) returns (r': nat)
    requires n < dst.Length && dst != ring && ring.Length >= N
    requires Mirrors(ring[..], w + dst[..n], r)
    modifies dst, ring
    ensures w + dst[..n + 1] == old(w + dst[..n]) + [c]
    ensures Mirrors(ring[..], w + dst[..n + 1], r')
    ensures forall k :: n < k < dst.Length ==> dst[k] == old(dst[k])
  {
    hide Cell;
    MirrorsBound(ring[..], w + dst[..n], r);
    MirrorsPush(ring[..], w + dst[..n], r, c);
    ghost var h, old_ring := w + dst[..n], ring[..];
    dst[n] := c;
    ring[r] := c;
    assert w + dst[..n + 1] == h + [c];
    assert ring[..] == old_ring[r := c];
    r' := (r + 1) % N;
  }

  lemma MirrorsBound(ring: seq<byte>, h: seq<byte>, r: nat)
    requires Mirrors(ring, h, r)
    ensures r < N <= |ring|
  {
  }

  lemma MirrorsRead(ring: seq<byte>, h: seq<byte>, r: nat, k: nat)
    requires Mirrors(ring, h, r) && |h| - N <= k < |h|
    ensures |ring| >= N && ring[Cell(k)] == h[k]
  {
  }

  lemma CopyBackStep(h: seq<byte>, dist: nat, n: nat)
    requires 1 <= dist <= |h|
    ensures CopyBack(h, dist, 0) == h
    ensures n > 0 ==> CopyBack(h, dist, n) == CopyBack(h + [h[|h| - dist]], dist, n - 1)
  {
  }

  /** Copy `len` bytes out of the ring, starting at cell `i`, to the output and back into
      the ring; the source may run into what is being written. */
  method CopyReference(dst: array<byte>, n: nat, ring: array<byte>, r: nat, i: RingIndex, len: CopyLength,
                       ghost w: seq<byte>)
    returns (n': nat, r': nat)
    requires |w| == N && n + len <= dst.Length && dst != ring && ring.Length >= N
    requires Mirrors(ring[..], w + dst[..n], r)
    modifies dst, ring
    ensures n' == n + len
    ensures w + dst[..n'] == Apply(w + old(dst[..n]), Reference(i, len))
    ensures Mirrors(ring[..], w + dst[..n'], r')
    ensures forall k :: n' <= k < dst.Length ==> dst[k] == old(dst[k])
  {
    hide Cell, Distance, Mirrors, CopyBack;
    ghost var h0 := w + dst[..n];
    ghost var dist := Distance(|h0|, i);
    n', r' := n, r;
    var k := 0;
    while k < len
      invariant 0 <= k <= len && n' == n + k
      invariant Mirrors(ring[..], w + dst[..n'], r')
      invariant |h0| == N + n && CopyBack(h0, dist, len) == CopyBack(w + dst[..n'], dist, len - k)
      invariant forall j :: n + len <= j < dst.Length ==> dst[j] == old(dst[j])
    {
      ghost var h := w + dst[..n'];
      ReferenceCell(|h0|, i, k);
      MirrorsRead(ring[..], h, r', |h0| + k - dist);
      var c := ring[(i + k) % N];
      CopyBackStep(h, dist, len - k);
      r' := PutByte(dst, n', ring, r', c, w);
      n' := n' + 1;
      k := k + 1;
    }
    CopyBackStep(w + dst[..n'], dist, 0);
  }

  /** What is still to come when the decoder stands at byte `p` with history `h`. */
  ghost function Rest(src: seq<byte>, p: nat, flags: nat, left: nat, h: seq<byte>): (r: seq<byte>)
    requires p <= |src| && |h| >= N
    ensures h <= r && |r| == |h| + TotalLength(Tokens(src[p..], flags, left))
  {
    Expand(h, Tokens(src[p..], flags, left))
  }

  lemma RestFlags(src: seq<byte>, p: nat, flags: nat, h: seq<byte>)
    requires p < |src| && |h| >= N
    ensures Rest(src, p, flags, 0, h) == Rest(src, p + 1, src[p], 8, h)
  {
    assert src[p..][1..] == src[p + 1..];
  }

  lemma RestLiteral(src: seq<byte>, p: nat, flags: nat, left: nat, h: seq<byte>)
    requires p < |src| && |h| >= N && left > 0 && flags % 2 == 1
    ensures Rest(src, p, flags, left, h) == Rest(src, p + 1, flags / 2, left - 1, h + [src[p]])
  {
    assert src[p..][1..] == src[p + 1..];
    var ts := Tokens(src[p..], flags, left);
    assert ts[1..] == Tokens(src[p + 1..], flags / 2, left - 1);
  }

  lemma RestReference(src: seq<byte>, p: nat, flags: nat, left: nat, h: seq<byte>)
    requires p + 1 < |src| && |h| >= N && left > 0 && flags % 2 == 0
    ensures Rest(src, p, flags, left, h)
         == Rest(src, p + 2, flags / 2, left - 1, Apply(h, MakeReference(src[p], src[p + 1])))
  {
    assert src[p..][2..] == src[p + 2..];
    var ts := Tokens(src[p..], flags, left);
    assert ts[1..] == Tokens(src[p + 2..], flags / 2, left - 1);
  }

  /** Nothing is left, or half a reference. */
  lemma RestNothing(src: seq<byte>, p: nat, flags: nat, left: nat, h: seq<byte>)
    requires p <= |src| && |h| >= N
    requires p == |src| || (p + 1 == |src| && left > 0 && flags % 2 == 0)
    ensures Rest(src, p, flags, left, h) == h
  {
  }

  /** Shift the flag word; when its eight bits are used up, load the next eight. */
  method NextFlag(src: seq<byte>, p: nat, flags: nat, ghost left: nat, ghost cur: nat, ghost h: seq<byte>)
    returns (stop: bool, p': nat, flags': nat, ghost left': nat, ghost cur': nat)
    requires p <= |src| && |h| >= N && left <= 8 && cur < Pow2(left)
    requires flags / 2 == Armed(left, cur) || (left == 0 && flags == 0)
    ensures p <= p' <= |src|
    ensures stop ==> Rest(src, p, cur, left, h) == h
    ensures !stop ==> 1 <= left' <= 8 && cur' < Pow2(left') && flags' == Armed(left', cur')
    ensures !stop ==> Rest(src, p', cur', left', h) == Rest(src, p, cur, left, h)
  {
    hide Rest, Armed;
    stop, p', flags', left', cur' := false, p, flags / 2, left, cur;
    ArmedTest(left, cur);
    if flags' / 0x100 % 2 == 0 {
      if p >= |src| {
        RestNothing(src, p, cur, left, h);
        stop := true;
      } else {
        RestFlags(src, p, cur, h);
        ArmedFull(src[p]);
        p', flags' := p + 1, (src[p] as int) + 0xFF00;
        left', cur' := 8, src[p];
      }
    }
  }

  /** Decode one token. */
  method NextToken(dst: array<byte>, n: nat, ring: array<byte>, r: nat, src: seq<byte>, p: nat, flags: nat,
                   ghost left: nat, ghost cur: nat, ghost w: seq<byte>)
    returns (stop: bool, n': nat, r': nat, p': nat)
    requires |w| == N && n <= dst.Length && dst != ring && ring.Length >= N && p <= |src|
    requires Mirrors(ring[..], w + dst[..n], r)
    requires 1 <= left <= 8 && cur < Pow2(left) && flags == Armed(left, cur)
    requires |Rest(src, p, cur, left, w + dst[..n])| <= N + dst.Length
    modifies dst, ring
    ensures p <= p' <= |src| && n <= n' <= dst.Length && (!stop ==> p < p')
    ensures stop ==> n' == n && w + dst[..n'] == old(Rest(src, p, cur, left, w + dst[..n]))
    ensures !stop ==> Mirrors(ring[..], w + dst[..n'], r')
    ensures !stop ==> Rest(src, p', cur / 2, left - 1, w + dst[..n']) == old(Rest(src, p, cur, left, w + dst[..n]))
    ensures forall k :: n' <= k < dst.Length ==> dst[k] == old(dst[k])
  {
    hide Rest, Armed, Mirrors, Cell, Distance, CopyBack;
    stop, n', r', p' := false, n, r, p;
    ArmedTest(left, cur);
    if p >= |src| {
      RestNothing(src, p, cur, left, w + dst[..n]);
      stop := true;
    } else if flags % 2 == 1 {
      RestLiteral(src, p, cur, left, w + dst[..n]);
      p' := p + 1;
      r' := PutByte(dst, n, ring, r, src[p], w);
      n' := n + 1;
    } else if p + 1 >= |src| {
      RestNothing(src, p, cur, left, w + dst[..n]);
      stop := true;
    } else {
      var i, j := src[p], src[p + 1];
      RestReference(src, p, cur, left, w + dst[..n]);
      p' := p + 2;
      n', r' := CopyReference(dst, n, ring, r, i + 0x100 * (j / 16), j % 16 + THRESHOLD + 1, w);
    }
  }

  /** The output is the LZ77 expansion of the stream's tokens over some contents of the
      eighteen cells that are never set. Nothing past it is written. */
  method DecompressLzss(dst: array<byte>, src: seq<byte>) returns (n: nat, ghost unset: seq<byte>)
    requires TotalLength(Tokens(src, 0, 0)) <= dst.Length
    modifies dst
    ensures |unset| == F
    ensures n == TotalLength(Tokens(src, 0, 0))
    ensures Window(unset) + dst[..n] == Expand(Window(unset), Tokens(src, 0, 0))
    ensures forall k :: n <= k < dst.Length ==> dst[k] == old(dst[k])
  {
    hide Cell, Distance, Rest, Mirrors, Window, Armed, CopyBack, Tokens, Expand;
    var ring := new byte[N + F - 1];
    for i := 0 to N - F
      modifies ring
      invariant forall k :: 0 <= k < i ==> ring[k] == ' ' as int
    {
      ring[i] := ' ' as int;
    }
    unset := ring[N - F..N];
    ghost var w := Window(unset);
    MirrorsFirst(ring[..], unset);
    var r: nat, flags: nat, p: nat := N - F, 0, 0;
    n := 0;
    ghost var left: nat, cur: nat := 0, 0;
    RestAll(src, w);
    assert w + dst[..0] == w;
    while true
      invariant p <= |src| && n <= dst.Length
      invariant left <= 8 && cur < Pow2(left)
      invariant flags / 2 == Armed(left, cur) || (left == 0 && flags == 0)
      invariant Mirrors(ring[..], w + dst[..n], r)
      invariant Rest(src, p, cur, left, w + dst[..n]) == Expand(w, Tokens(src, 0, 0))
      invariant forall k :: n <= k < dst.Length ==> dst[k] == old(dst[k])
      decreases |src| - p
    {
      var stop;
      stop, p, flags, left, cur := NextFlag(src, p, flags, left, cur, w + dst[..n]);
      if stop {
        break;
      }
      stop, n, r, p := NextToken(dst, n, ring, r, src, p, flags, left, cur, w);
      if stop {
        break;
      }
      ArmedTest(left, cur);
      left, cur := left - 1, cur / 2;
    }
  }

  lemma ArmedFull(c: byte)
    ensures c < Pow2(8) && Armed(8, c) == (c as int) + 0xFF00
  {
    Pow2Constants();
  }

  lemma RestAll(src: seq<byte>, h: seq<byte>)
    requires |h| >= N
    ensures Rest(src, 0, 0, 0, h) == Expand(h, Tokens(src, 0, 0))
  {
    assert src[0..] == src;
  }

  // ----- The format: one flag byte for eight tokens

  function Body(t: Token): seq<byte> {
    match t
    case Literal(b) => [b]
    case Reference(i, len) => [i % 0x100, i / 0x100 * 16 + (len - THRESHOLD - 1)]
  }

  function Bodies(ts: seq<Token>): seq<byte> {
    if ts == [] then [] else Body(ts[0]) + Bodies(ts[1..])
  }

  function FlagBits(ts: seq<Token>): (f: nat)
    ensures f < Pow2(|ts|)
  {
    if ts == [] then 0 else (if ts[0].Literal? then 1 else 0) + 2 * FlagBits(ts[1..])
  }

  function FlagByte(ts: seq<Token>): (f: byte)
    requires |ts| <= 8
  {
    Pow2Constants();
    Pow2Monotone(|ts|, 8);
    FlagBits(ts)
  }

  function Pack(ts: seq<Token>): seq<byte> {
    if ts == [] then []
    else
      var n := if |ts| < 8 then |ts| else 8;
      [FlagByte(ts[..n])] + Bodies(ts[..n]) + Pack(ts[n..])
  }

  /** Decoding undoes one body. */
  lemma BodyUndone(t: Token, rest: seq<byte>, flags: nat, left: nat)
    requires left > 0 && flags % 2 == if t.Literal? then 1 else 0
    ensures Tokens(Body(t) + rest, flags, left) == [t] + Tokens(rest, flags / 2, left - 1)
  {
    var s := Body(t) + rest;
    if t.Literal? {
      assert s[1..] == rest;
    } else {
      assert s[2..] == rest;
      var i, l := t.start, t.len - THRESHOLD - 1;
      DivMod(i / 0x100 * 16 + l, 16, i / 0x100, l);
    }
  }

  lemma {:induction false} GroupUndone(g: seq<Token>, rest: seq<byte>, left: nat)
    requires |g| <= left && (|g| == left || rest == [])
    ensures Tokens(Bodies(g) + rest, FlagBits(g), left) == g + Tokens(rest, 0, left - |g|)
    decreases |g|
  {
    hide Tokens, Body, FlagBits, Bodies;
    if g == [] {
      NoGroupUndone(rest, left);
    } else {
      var s := Bodies(g[1..]) + rest;
      var tail := Tokens(rest, 0, left - |g|);
      FlagStep(g);
      assert Bodies(g) + rest == Body(g[0]) + s;
      BodyUndone(g[0], s, FlagBits(g), left);
      GroupUndone(g[1..], rest, left - 1);
      assert left - 1 - |g[1..]| == left - |g|;
      assert [g[0]] + (g[1..] + tail) == g + tail;
    }
  }

  lemma NoGroupUndone(rest: seq<byte>, left: nat)
    ensures Tokens(Bodies([]) + rest, FlagBits([]), left) == [] + Tokens(rest, 0, left)
  {
    assert Bodies([]) + rest == rest;
  }

  lemma FlagStep(g: seq<Token>)
    requires g != []
    ensures Bodies(g) == Body(g[0]) + Bodies(g[1..])
    ensures FlagBits(g) / 2 == FlagBits(g[1..])
    ensures FlagBits(g) % 2 == if g[0].Literal? then 1 else 0
  {
  }

  /** Decoding the packed form gives the tokens back. */
  lemma {:induction false} PackUndone(ts: seq<Token>)
    ensures Tokens(Pack(ts), 0, 0) == ts
    decreases |ts|
  {
    if ts != [] {
      var n := if |ts| < 8 then |ts| else 8;
      var g, rest := ts[..n], Pack(ts[n..]);
      var s := Pack(ts);
      assert s[1..] == Bodies(g) + rest;
      PackUndone(ts[n..]);
      if n < 8 {
        assert ts[n..] == [] && g == ts;
      }
      GroupUndone(g, rest, 8);
      assert g + ts[n..] == ts;
    }
  }

  // ----- Expansion bound

  /** Seventeen bytes of stream make at most 144 bytes of output. */
  lemma {:induction false} ExpansionBound(src: seq<byte>, flags: nat, left: nat)
    ensures 17 * TotalLength(Tokens(src, flags, left)) <= 144 * |src| + 18 * left
    decreases |src|
  {
    if src == [] {
    } else if left == 0 {
      ExpansionBound(src[1..], src[0], 8);
    } else if flags % 2 == 1 {
      var rest := Tokens(src[1..], flags / 2, left - 1);
      assert Tokens(src, flags, left)[1..] == rest;
      ExpansionBound(src[1..], flags / 2, left - 1);
    } else if |src| > 1 {
      var rest := Tokens(src[2..], flags / 2, left - 1);
      assert Tokens(src, flags, left)[1..] == rest;
      ExpansionBound(src[2..], flags / 2, left - 1);
    }
  }

  // ----- The cells that are never set

  /** No reference reaches back into the first F bytes of the history. */
  predicate AvoidsUnset(m: nat, ts: seq<Token>)
    requires m >= N
    decreases |ts|
  {
    ts == [] ||
    (&& (ts[0].Reference? ==> m - Distance(m, ts[0].start) >= F)
     && AvoidsUnset(m + Length(ts[0]), ts[1..]))
  }

  ghost predicate AgreeFrom(a: seq<byte>, b: seq<byte>, n: nat) {
    |a| == |b| && forall k :: n <= k < |a| ==> a[k] == b[k]
  }

  lemma {:induction false} CopyBackAgrees(a: seq<byte>, b: seq<byte>, dist: nat, n: nat)
    requires AgreeFrom(a, b, F) && 1 <= dist <= |a| && |a| - dist >= F
    ensures AgreeFrom(CopyBack(a, dist, n), CopyBack(b, dist, n), F)
    decreases n
  {
    if n > 0 {
      CopyBackAgrees(a + [a[|a| - dist]], b + [b[|b| - dist]], dist, n - 1);
    }
  }

  /** A stream that avoids the unset cells expands to the same output whatever they hold. */
  lemma {:induction false} UnsetIrrelevant(a: seq<byte>, b: seq<byte>, ts: seq<Token>)
    requires AgreeFrom(a, b, F) && |a| >= N && AvoidsUnset(|a|, ts)
    ensures AgreeFrom(Expand(a, ts), Expand(b, ts), F)
    decreases |ts|
  {
    if ts != [] {
      if ts[0].Reference? {
        CopyBackAgrees(a, b, Distance(|a|, ts[0].start), ts[0].len);
      }
      UnsetIrrelevant(Apply(a, ts[0]), Apply(b, ts[0]), ts[1..]);
    }
  }

  /** One that does not avoid them has an output byte that shows what they hold. */
  lemma {:induction false} UnsetShows(a: seq<byte>, b: seq<byte>, ts: seq<Token>)
    requires AgreeFrom(a, b, F) && |a| >= N && !AvoidsUnset(|a|, ts)
    requires forall k :: 0 <= k < F ==> a[k] != b[k]
    ensures !AgreeFrom(Expand(a, ts), Expand(b, ts), F)
    decreases |ts|
  {
    var t := ts[0];
    if t.Reference? && |a| - Distance(|a|, t.start) < F {
      var dist := Distance(|a|, t.start);
      CopyBackStep(a, dist, t.len);
      CopyBackStep(b, dist, t.len);
      var p, q := a[|a| - dist], b[|b| - dist];
      assert (a + [p])[|a|] != (b + [q])[|a|];
      assert a + [p] <= Apply(a, t) <= Expand(a, ts);
      assert b + [q] <= Apply(b, t) <= Expand(b, ts);
    } else {
      if t.Reference? {
        CopyBackAgrees(a, b, Distance(|a|, t.start), t.len);
      }
      UnsetShows(Apply(a, t), Apply(b, t), ts[1..]);
    }
  }

  /** The output depends on the stream alone exactly when no reference reads a cell that
      was never set. */
  lemma OutputDetermined(src: seq<byte>)
    ensures AvoidsUnset(N, Tokens(src, 0, 0)) <==>
            forall u, v: seq<byte> | |u| == F && |v| == F ::
              Expand(Window(u), Tokens(src, 0, 0))[N..] == Expand(Window(v), Tokens(src, 0, 0))[N..]
  {
    hide Tokens, Expand, Distance;
    var ts := Tokens(src, 0, 0);
    if AvoidsUnset(N, ts) {
      forall u, v: seq<byte> | |u| == F && |v| == F
        ensures Expand(Window(u), ts)[N..] == Expand(Window(v), ts)[N..]
      {
        UnsetIrrelevant(Window(u), Window(v), ts);
      }
    } else {
      var u: seq<byte>, v: seq<byte> := seq(F, _ => 0), seq(F, _ => 1);
      UnsetShows(Window(u), Window(v), ts);
      var a, b := Expand(Window(u), ts), Expand(Window(v), ts);
      if a[N..] == b[N..] {
        AgreeInTwoParts(a, b, Window(u), Window(v));
        assert false;
      }
    }
  }

  /** A stream whose one reference reads the last unset cells. */
  lemma ReadsUnsetCells()
    ensures !AvoidsUnset(N, Tokens([0, 0xEE, 0xF0], 0, 0))
  {
    var src: seq<byte> := [0, 0xEE, 0xF0];
    var t := MakeReference(0xEE, 0xF0);
    assert Tokens(src, 0, 0) == Tokens(src[1..], 0, 8);
    assert src[1..][2..] == [];
    assert Tokens(src[1..], 0, 8) == [t] + Tokens([], 0, 7);
    assert Distance(N, t.start) > N - F;
  }

  lemma AgreeInTwoParts(a: seq<byte>, b: seq<byte>, u: seq<byte>, v: seq<byte>)
    requires |u| == |v| == N && u <= a && v <= b && AgreeFrom(u, v, F) && a[N..] == b[N..]
    ensures AgreeFrom(a, b, F)
  {
    assert a == u + a[N..] && b == v + b[N..];
  }
}

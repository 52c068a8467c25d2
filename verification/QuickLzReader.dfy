/** The input side of qlz_decompress_core that both levels share: the header, runs of
    literals taken up to four at a time, and the literal tail. */
module QuickLzReader {
  import opened Bytes
  import opened ControlWords
  import opened QuickLzTokens

  // ----- Header

  /** Bytes of each size field: bit 1 of the first byte selects four. */
  function FieldWidth(s: seq<byte>): (n: nat)
    requires |s| >= 1
    ensures n == 1 || n == 4
  {
    if s[0] / 2 % 2 == 1 then 4 else 1
  }

  function HeaderSize(s: seq<byte>): (n: nat)
    requires |s| >= 1
    ensures n == 3 || n == 9
  {
    2 * FieldWidth(s) + 1
  }

  function SizeCompressed(s: seq<byte>): nat
    requires |s| >= 1 && |s| >= HeaderSize(s)
  {
    FastRead(s, 1, FieldWidth(s))
  }

  function SizeDecompressed(s: seq<byte>): nat
    requires |s| >= 1 && |s| >= HeaderSize(s)
  {
    FastRead(s, 1 + FieldWidth(s), FieldWidth(s))
  }

  // ----- Runs of literals

  const BITLUT: seq<nat> := [4, 0, 1, 0, 2, 0, 1, 0, 3, 0, 1, 0, 2, 0, 1, 0]

  function Shr(w: nat, n: nat): nat {
    if n == 0 then w else Shr(w / 2, n - 1)
  }

  /** Number of zero bits at the bottom of `w`, at most `m`. */
  function Zeros(w: nat, m: nat): (n: nat)
    ensures n <= m
  {
    if m == 0 || w % 2 == 1 then 0 else 1 + Zeros(w / 2, m - 1)
  }

  lemma BitlutCountsZeros(w: nat)
    ensures BITLUT[w % 16] == Zeros(w, 4)
  {
    hide Zeros;
    ZerosStep(w, 3);
    ZerosStep(w / 2, 2);
    ZerosStep(w / 2 / 2, 1);
    ZerosStep(w / 2 / 2 / 2, 0);
    LowBits(w);
  }

  lemma ZerosStep(w: nat, m: nat)
    ensures Zeros(w, m + 1) == if w % 2 == 1 then 0 else 1 + Zeros(w / 2, m)
    ensures Zeros(w, 0) == 0
  {
  }

  lemma LowBits(w: nat)
    ensures w % 16 == w % 2 + 2 * (w / 2 % 2) + 4 * (w / 2 / 2 % 2) + 8 * (w / 2 / 2 / 2 % 2)
  {
    var a := w / 2;
    var b := a / 2;
    var c := b / 2;
    SixteenRemainder(w, c / 2, w % 2 + 2 * (a % 2) + 4 * (b % 2) + 8 * (c % 2));
  }

  lemma SixteenRemainder(w: nat, q: nat, r: nat)
    requires r < 16 && w == 16 * q + r
    ensures w % 16 == r
  {
  }

  /** A literal's chunk is its byte; a match's chunk has at least one byte. */
  ghost predicate Encodes(ts: seq<Token>, cs: seq<Chunk>) {
    && |cs| == |ts|
    && forall i :: 0 <= i < |cs| ==>
         && cs[i].isMatch == ts[i].Match?
         && |cs[i].body| >= 1
         && (ts[i].Literal? ==> cs[i].body == [ts[i].value])
  }

  /** The decoder stands before token `i`, which starts at `d` of the text. */
  ghost predicate At(x: seq<byte>, ts: seq<Token>, s: seq<byte>, cs: seq<Chunk>,
                     src: nat, w: nat, d: nat, i: nat, c: nat, pad: nat) {
    && Tiles(x, ts) && Encodes(ts, cs)
    && Reading(s, src, w, cs, i, c, pad)
    && d == Span(ts[..i])
  }

  /** Where decoding begins. */
  lemma AtFirst(x: seq<byte>, ts: seq<Token>, s: seq<byte>, cs: seq<Chunk>, src: nat)
    requires Tiles(x, ts) && Encodes(ts, cs) && src <= |s| && Layout(cs) <= s[src..]
    ensures At(x, ts, s, cs, src, 1, 0, 0, 0, 0)
  {
    hide Layout;
    assert cs[0..0] == [] && cs[0..] == cs;
    assert Flags([]) + Pad(0) == [];
    assert Bodies([]) + Layout(cs) == Layout(cs);
    assert ts[..0] == [];
  }

  lemma AtInside(x: seq<byte>, ts: seq<Token>, s: seq<byte>, cs: seq<Chunk>,
                 src: nat, w: nat, d: nat, i: nat, c: nat, pad: nat)
    requires At(x, ts, s, cs, src, w, d, i, c, pad)
    ensures src <= |s| && i <= |ts| && d <= |x| && i + c <= |ts|
    ensures i < |ts| <==> d < |x|
    ensures d == Span(ts[..i])
  {
    TokensLeft(x, ts, i);
  }

  /** The token the decoder stands before, and the state after it. */
  lemma AtToken(x: seq<byte>, ts: seq<Token>, s: seq<byte>, cs: seq<Chunk>,
                src: nat, w: nat, d: nat, i: nat, c: nat, pad: nat)
    requires At(x, ts, s, cs, src, w, d, i, c, pad) && i < |ts| && w != 1
    ensures c > 0 && d == Span(ts[..i]) && Fits(x, d, ts[i])
    ensures w % 2 == if ts[i].Match? then 1 else 0
    ensures var n := |cs[i].body|;
            && src + n <= |s| && s[src..src + n] == cs[i].body
            && At(x, ts, s, cs, src + n, w / 2, d + Len(ts[i]), i + 1, c - 1, pad)
  {
    hide Reading;
    BetweenGroups(s, src, w, cs, i, c, pad);
    Advance(s, src, w, cs, i, c, pad);
    SpanStep(ts, i);
  }

  /** One literal further. */
  lemma OneLiteral(x: seq<byte>, ts: seq<Token>, s: seq<byte>, cs: seq<Chunk>,
                   src: nat, w: nat, d: nat, i: nat, c: nat, pad: nat)
    requires At(x, ts, s, cs, src, w, d, i, c, pad)
    requires i < |ts| && w % 2 == 0
    ensures c > 0 && ts[i].Literal?
    ensures src < |s| && d < |x| && s[src] == x[d]
    ensures At(x, ts, s, cs, src + 1, w / 2, d + 1, i + 1, c - 1, pad)
  {
    hide Reading;
    AtToken(x, ts, s, cs, src, w, d, i, c, pad);
    assert s[src..src + 1][0] == s[src];
  }

  /** `n` zero flags with that many tokens left are `n` literals. */
  lemma {:induction false} LiteralRun(x: seq<byte>, ts: seq<Token>, s: seq<byte>, cs: seq<Chunk>,
                                      src: nat, w: nat, d: nat, i: nat, c: nat, pad: nat, n: nat, m: nat)
    requires At(x, ts, s, cs, src, w, d, i, c, pad)
    requires i + n <= |ts| && n <= Zeros(w, m)
    ensures n <= c && src + n <= |s| && d + n <= |x|
    ensures forall k :: i <= k < i + n ==> ts[k].Literal?
    ensures s[src..src + n] == x[d..d + n]
    ensures At(x, ts, s, cs, src + n, Shr(w, n), d + n, i + n, c - n, pad)
    decreases n
  {
    hide At;
    AtInside(x, ts, s, cs, src, w, d, i, c, pad);
    if n > 0 {
      OneLiteral(x, ts, s, cs, src, w, d, i, c, pad);
      LiteralRun(x, ts, s, cs, src + 1, w / 2, d + 1, i + 1, c - 1, pad, n - 1, m - 1);
      assert s[src..src + n] == [s[src]] + s[src + 1..src + 1 + (n - 1)];
      assert x[d..d + n] == [x[d]] + x[d + 1..d + 1 + (n - 1)];
      assert src + 1 + (n - 1) == src + n && d + 1 + (n - 1) == d + n;
    }
  }

  /** A control word over literals only. */
  lemma LiteralWord(cs: seq<Chunk>, i: nat)
    requires i < |cs|
    requires forall k :: i <= k < |cs| ==> !cs[k].isMatch
    ensures var n := GroupSize(cs, i); Word(Flags(cs[i..i + n]) + Pad(GROUP - n)) == 0x8000_0000
  {
    var n := GroupSize(cs, i);
    assert Flags(cs[i..i + n]) + Pad(GROUP - n) == Pad(GROUP);
    WordPad(GROUP);
    Pow2Constants();
  }

  lemma AtReload(x: seq<byte>, ts: seq<Token>, s: seq<byte>, cs: seq<Chunk>,
                 src: nat, d: nat, i: nat, c: nat, pad: nat)
    requires At(x, ts, s, cs, src, 1, d, i, c, pad) && i < |ts|
    ensures src + 4 <= |s|
    ensures var n := GroupSize(cs, i);
            n > 0 && At(x, ts, s, cs, src + 4, FastRead(s, src, 4), d, i, n, GROUP - n)
  {
    BetweenGroups(s, src, 1, cs, i, c, pad);
    Reload(s, src, cs, i);
  }

  /** Bytes in front of the decoder: enough for a four-byte fetch, since the last four
      bytes of the text are stored as they are. */
  lemma FetchStaysInside(x: seq<byte>, ts: seq<Token>, s: seq<byte>, cs: seq<Chunk>,
                         src: nat, w: nat, d: nat, i: nat, c: nat, pad: nat)
    requires At(x, ts, s, cs, src, w, d, i, c, pad) && d + UNCOMPRESSED_END <= |x|
    ensures src + 4 <= |s| && i + 4 <= |ts|
  {
    AtInside(x, ts, s, cs, src, w, d, i, c, pad);
    TokensLeft(x, ts, i);
    BytesLeft(s, src, w, cs, i, c, pad);
  }

  // ----- Copying from the stream

  lemma SlicePrefix(a: seq<byte>, i: nat, n: nat, m: nat)
    requires n <= m && i + m <= |a|
    ensures a[i..i + m][..n] == a[i..i + n]
  {
  }

  method CopyIn(source: seq<byte>, src: nat, dest: array<byte>, d: nat, n: nat)
    requires src + n <= |source| && d + n <= dest.Length
    modifies dest
    ensures dest[d..d + n] == source[src..src + n]
    ensures forall k :: 0 <= k < dest.Length && !(d <= k < d + n) ==> dest[k] == old(dest[k])
  {
    for k := 0 to n
      invariant forall j :: d <= j < d + k ==> dest[j] == source[src + (j - d)]
      invariant forall j :: 0 <= j < dest.Length && !(d <= j < d + k) ==> dest[j] == old(dest[j])
    {
      dest[d + k] := source[src + k];
    }
  }

  /** A run of literals: four bytes are copied, the zero flags say how many count. */
  method CopyLiterals(source: seq<byte>, limit: nat, dest: array<byte>, size: nat, src: nat, w: nat, d: nat,
                      ghost ok: bool, ghost x: seq<byte>, ghost ts: seq<Token>, ghost cs: seq<Chunk>,
                      ghost i: nat, ghost c: nat, ghost pad: nat)
    returns (n: nat)
    requires src + 4 <= limit <= |source| && size <= dest.Length
    requires d + 1 + UNCONDITIONAL_MATCHLEN + UNCOMPRESSED_END < size
    requires w % 2 == 0
    requires ok ==> |x| == size && i < |ts| && w != 1 && At(x, ts, source[..limit], cs, src, w, d, i, c, pad)
    requires ok ==> dest[..d] == x[..d]
    modifies dest
    ensures 1 <= n <= 4
    ensures ok ==> n <= c && At(x, ts, source[..limit], cs, src + n, Shr(w, n), d + n, i + n, c - n, pad)
    ensures ok ==> dest[..d + n] == x[..d + n] && i + n <= |ts| && forall k :: i <= k < i + n ==> ts[k].Literal?
    ensures forall k :: size <= k < dest.Length ==> dest[k] == old(dest[k])
  {
    hide Layout, Word, At, Shr, Zeros;
    n := BITLUT[w % 16];
    BitlutCountsZeros(w);
    ZerosStep(w, 3);
    ghost var s := source[..limit];
    if ok {
      FetchStaysInside(x, ts, s, cs, src, w, d, i, c, pad);
      AtInside(x, ts, s, cs, src, w, d, i, c, pad);
      LiteralRun(x, ts, s, cs, src, w, d, i, c, pad, n, 4);
    }
    CopyIn(source, src, dest, d, 4);
    if ok {
      SlicePrefix(source, src, n, 4);
      SlicePrefix(dest[..], d, n, 4);
      assert s[src..src + n] == source[src..src + n] == dest[d..d + n];
      assert dest[..d] == x[..d];
      assert dest[..d + n] == dest[..d] + dest[d..d + n];
      assert x[..d + n] == x[..d] + x[d..d + n];
    }
  }

  /** The tail: every byte from `d` on is taken to be a literal. Stepping over a
      control word, the decoder assumes that it holds no match flag. */
  method CopyTail(source: seq<byte>, limit: nat, dest: array<byte>, size: nat, src0: nat, w0: nat, d0: nat,
                  ghost ok: bool, ghost x: seq<byte>, ghost ts: seq<Token>, ghost cs: seq<Chunk>,
                  ghost i0: nat, ghost c0: nat, ghost pad0: nat)
    returns (done: bool)
    requires limit <= |source| && d0 <= size <= dest.Length
    requires ok ==> |x| == size && At(x, ts, source[..limit], cs, src0, w0, d0, i0, c0, pad0)
    requires ok ==> dest[..d0] == x[..d0]
    requires ok ==> forall k :: i0 <= k < |ts| ==> ts[k].Literal?
    modifies dest
    ensures ok ==> done && dest[..size] == x
    ensures forall k :: size <= k < dest.Length ==> dest[k] == old(dest[k])
  {
    hide At;
    var src: nat, w: nat, d: nat := src0, w0, d0;
    ghost var i: nat, c: nat, pad: nat := i0, c0, pad0;
    if ok {
      AtInside(x, ts, source[..limit], cs, src, w, d, i, c, pad);
    }
    while d < size
      invariant d0 <= d <= size
      invariant ok ==> At(x, ts, source[..limit], cs, src, w, d, i, c, pad) && i0 <= i <= |ts|
      invariant ok ==> (i < |ts| <==> d < size)
      invariant ok ==> dest[..d] == x[..d]
      invariant forall k :: size <= k < dest.Length ==> dest[k] == old(dest[k])
    {
      if w == 1 {
        if ok {
          TailReload(x, ts, source[..limit], cs, src, d, i, c, pad);
          c, pad := GroupSize(cs, i), GROUP - GroupSize(cs, i);
        }
        src := src + CWORD_LEN;
        w := 0x8000_0000;
      }
      if ok {
        TailLiteral(x, ts, source[..limit], cs, src, w, d, i, c, pad);
        i, c := i + 1, c - 1;
      }
      if src >= limit {
        return false;
      }
      dest[d] := source[src];
      d := d + 1;
      src := src + 1;
      w := w / 2;
    }
    done := true;
  }

  lemma TailReload(x: seq<byte>, ts: seq<Token>, s: seq<byte>, cs: seq<Chunk>,
                   src: nat, d: nat, i: nat, c: nat, pad: nat)
    requires At(x, ts, s, cs, src, 1, d, i, c, pad) && i < |ts|
    requires forall k :: i <= k < |ts| ==> ts[k].Literal?
    ensures var n := GroupSize(cs, i); n > 0 && At(x, ts, s, cs, src + 4, 0x8000_0000, d, i, n, GROUP - n)
  {
    AtReload(x, ts, s, cs, src, d, i, c, pad);
    LiteralWord(cs, i);
  }

  lemma TailLiteral(x: seq<byte>, ts: seq<Token>, s: seq<byte>, cs: seq<Chunk>,
                    src: nat, w: nat, d: nat, i: nat, c: nat, pad: nat)
    requires At(x, ts, s, cs, src, w, d, i, c, pad) && i < |ts| && w != 1
    requires ts[i].Literal?
    ensures c > 0 && src < |s| && d < |x| && s[src] == x[d]
    ensures At(x, ts, s, cs, src + 1, w / 2, d + 1, i + 1, c - 1, pad)
    ensures i + 1 < |ts| <==> d + 1 < |x|
  {
    BetweenGroups(s, src, w, cs, i, c, pad);
    Advance(s, src, w, cs, i, c, pad);
    OneLiteral(x, ts, s, cs, src, w, d, i, c, pad);
    TokensLeft(x, ts, i + 1);
  }

  // ----- Shared steps of the main loop

  /** Load the next control word if the current one is used up. */
  method LoadWord(source: seq<byte>, limit: nat, src: nat, w: nat,
                  ghost ok: bool, ghost x: seq<byte>, ghost ts: seq<Token>, ghost cs: seq<Chunk>, ghost d: nat,
                  ghost i: nat, ghost c: nat, ghost pad: nat)
    returns (fail: bool, src': nat, w': nat, ghost c': nat, ghost pad': nat)
    requires limit <= |source|
    requires ok ==> At(x, ts, source[..limit], cs, src, w, d, i, c, pad) && i < |ts|
    ensures fail <==> w == 1 && src + CWORD_LEN > limit
    ensures !fail ==> src' == (if w == 1 then src + CWORD_LEN else src) && (w == 1 ==> src' <= limit)
    ensures !fail ==> w' == if w == 1 then FastRead(source, src, CWORD_LEN) else w
    ensures ok ==> !fail && w' != 1 && At(x, ts, source[..limit], cs, src', w', d, i, c', pad')
  {
    hide Layout, Word, Bodies, FromLe;
    c', pad' := c, pad;
    ghost var s := source[..limit];
    if w == 1 {
      if ok {
        AtReload(x, ts, s, cs, src, d, i, c, pad);
        c', pad' := GroupSize(cs, i), GROUP - GroupSize(cs, i);
      }
      if src + CWORD_LEN - 1 > limit - 1 {
        return true, src, w, c', pad';
      }
      w', src' := FastRead(source, src, CWORD_LEN), src + CWORD_LEN;
      assert source[src..src + 4] == source[..limit][src..src + 4];
    } else {
      w', src' := w, src;
    }
    fail := false;
    if ok {
      BetweenGroups(s, src', w', cs, i, c', pad');
    }
  }

  /** A literal at or past the last place where a match may start: nothing but
      literals follow. */
  lemma OnlyLiteralsLeft(x: seq<byte>, ts: seq<Token>, i: nat)
    requires Tiles(x, ts) && i < |ts| && ts[i].Literal?
    requires |x| <= Span(ts[..i]) + 1 + UNCONDITIONAL_MATCHLEN + UNCOMPRESSED_END
    ensures forall k :: i <= k < |ts| ==> ts[k].Literal?
  {
    forall k | i < k < |ts| ensures ts[k].Literal? {
      SpanIncreases(ts, i, k);
      assert Fits(x, Span(ts[..k]), ts[k]);
    }
  }

  lemma {:induction false} SpanIncreases(ts: seq<Token>, i: nat, k: nat)
    requires i < k <= |ts|
    ensures Span(ts[..i]) < Span(ts[..k])
  {
    SpanStep(ts, k - 1);
    if i < k - 1 {
      SpanIncreases(ts, i, k - 1);
    }
  }

  lemma AtTiles(x: seq<byte>, ts: seq<Token>, s: seq<byte>, cs: seq<Chunk>,
                src: nat, w: nat, d: nat, i: nat, c: nat, pad: nat)
    requires At(x, ts, s, cs, src, w, d, i, c, pad)
    ensures Tiles(x, ts) && d == Span(ts[..i])
  {
  }
}

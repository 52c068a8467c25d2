/** qlz_decompress_core at level 3, with its bounds checks on. */
module QuickLz3Decompress {
  import opened Bytes
  import opened ControlWords
  import opened QuickLzTokens
  import opened QuickLz3
  import opened QuickLzReader
  import opened QuickLzCopy

  /** The stream spells `x` through the tokens `ts`. The stream may be longer than the
      layout, and has at least nine bytes. */
  ghost predicate Spells(s: seq<byte>, x: seq<byte>, ts: seq<Token>) {
    && |x| > 0 && |s| >= 9
    && Tiles(x, ts) && Resolves(x, ts)
    && Layout(Codes(ts)) <= s
  }

  ghost predicate Holding(x: seq<byte>, ts: seq<Token>, s: seq<byte>, out: seq<byte>,
                          src: nat, w: nat, d: nat, i: nat, c: nat, pad: nat) {
    && At(x, ts, s, Codes(ts), src, w, d, i, c, pad) && Resolves(x, ts)
    && i <= |ts| && d <= |x| <= |out| && out[..d] == x[..d]
  }

  lemma HoldingFirst(x: seq<byte>, ts: seq<Token>, s: seq<byte>, out: seq<byte>, src: nat)
    requires src <= |s| && |x| <= |out|
    requires Spells(s[src..], x, ts)
    ensures Holding(x, ts, s, out, src, 1, 0, 0, 0, 0)
  {
    hide At, Layout;
    AtFirst(x, ts, s, Codes(ts), src);
  }

  /** What the decoder reads at a match; its two checks pass. */
  lemma AtMatch(x: seq<byte>, ts: seq<Token>, s: seq<byte>, out: seq<byte>,
                src: nat, w: nat, d: nat, i: nat, c: nat, pad: nat)
    requires Holding(x, ts, s, out, src, w, d, i, c, pad)
    requires i < |ts| && w % 2 == 1 && w != 1 && src + 4 <= |s|
    ensures c > 0
    ensures var (offset, len, used) := ReadMatch(FastRead(s, src, 4));
            && MINOFFSET + 1 <= offset <= d
            && d + len + UNCOMPRESSED_END <= |x|
            && Copies(x, d - offset, d, len)
            && At(x, ts, s, Codes(ts), src + used, w / 2, d + len, i + 1, c - 1, pad)
  {
    hide At, Le, FromLe, ReadMatch, CodeValue;
    AtToken(x, ts, s, Codes(ts), src, w, d, i, c, pad);
    assert Codes(ts)[i] == Code(ts[i]);
    assert ResolvesAt(x, ts, i);
    ReadsWhatWasCoded(s, src, ts[i]);
  }

  /** One match. */
  method MatchRound(words: bool, source: seq<byte>, limit: nat, dest: array<byte>, size: nat, src: nat, w: nat, d: nat,
                    ghost ok: bool, ghost x: seq<byte>, ghost ts: seq<Token>, ghost i: nat, ghost c: nat,
                    ghost pad: nat)
    returns (fail: bool, src': nat, d': nat)
    requires src + 4 <= limit <= |source| && size <= dest.Length && size < 0x1_0000_0000
    requires d <= size && (d == 0 || d + UNCOMPRESSED_END <= size)
    requires w % 2 == 1
    requires ok ==> |x| == size && i < |ts| && w != 1
                    && Holding(x, ts, source[..limit], dest[..], src, w, d, i, c, pad)
    modifies dest
    ensures !fail ==> src < src' <= src + 4 && d <= d' && 0 < d' && d' + UNCOMPRESSED_END <= size
    ensures ok ==> !fail && c > 0
                   && Holding(x, ts, source[..limit], dest[..], src', w / 2, d', i + 1, c - 1, pad)
    ensures forall k :: size <= k < dest.Length ==> dest[k] == old(dest[k])
  {
    hide Layout, Word, FromLe, At, Resolves, ReadMatch;
    var (offset, matchlen, used) := ReadMatch(FastRead(source, src, 4));
    ghost var s := source[..limit];
    if ok {
      assert s[src..src + 4] == source[src..src + 4];
      AtMatch(x, ts, s, dest[..], src, w, d, i, c, pad);
    }
    var offset2 := d - offset;
    if offset2 < 0 || offset2 > d - MINOFFSET - 1 {
      return true, src, d;
    }
    if matchlen > (size - UNCOMPRESSED_END - d) % 0x1_0000_0000 {
      return true, src, d;
    }
    CopyMatch(words, dest, d, offset2, matchlen);
    if ok {
      CopyAgrees(dest[..], x, offset2, d, matchlen);
    }
    fail, src', d' := false, src + used, d + matchlen;
  }

  /** The whole of qlz_decompress_core. It never writes past `size`, whatever the stream;
      and a stream that spells `x` is never rejected and yields `x`. */
  method DecompressCore(words: bool, source: seq<byte>, dest: array<byte>, size: nat,
                        ghost x: seq<byte>, ghost ts: seq<Token>) returns (r: nat)
    requires |source| >= 1 && |source| >= HeaderSize(source) && SizeCompressed(source) <= |source|
    requires size <= dest.Length && size < 0x1_0000_0000
    modifies dest
    ensures r == 0 || r == size
    ensures HeaderSize(source) <= SizeCompressed(source) && |x| == size
            && Spells(source[HeaderSize(source)..SizeCompressed(source)], x, ts)
            ==> r == size && dest[..size] == x
    ensures forall k :: size <= k < dest.Length ==> dest[k] == old(dest[k])
  {
    hide Layout, Word, At, Resolves, Shr, Tiles, FromLe, HeaderSize;
    var limit := SizeCompressed(source);
    var h := HeaderSize(source);
    var src: nat, w: nat, d: nat := h, 1, 0;
    ghost var i: nat, c: nat, pad: nat := 0, 0, 0;
    ghost var s := source[..limit];
    ghost var ok := h <= limit && |x| == size && Spells(source[h..limit], x, ts);
    if ok {
      assert s[h..] == source[h..limit];
      HoldingFirst(x, ts, s, dest[..], h);
    }
    while true
      invariant h <= src && d <= size
      invariant d == 0 ==> src == h && w == 1
      invariant d > 0 ==> d + UNCOMPRESSED_END <= size
      invariant ok ==> h + 9 <= limit && |x| == size > 0 && Holding(x, ts, s, dest[..], src, w, d, i, c, pad)
      invariant forall k :: size <= k < dest.Length ==> dest[k] == old(dest[k])
      decreases |source| - src
    {
      if ok {
        AtInside(x, ts, s, Codes(ts), src, w, d, i, c, pad);
      }
      var fail;
      fail, src, w, c, pad := LoadWord(source, limit, src, w, ok, x, ts, Codes(ts), d, i, c, pad);
      if fail {
        return 0;
      }
      if ok && d > 0 {
        FetchStaysInside(x, ts, s, Codes(ts), src, w, d, i, c, pad);
      }
      if src + 4 - 1 > limit - 1 {
        return 0;
      }
      if w % 2 == 1 {
        fail, src, d := MatchRound(words, source, limit, dest, size, src, w, d, ok, x, ts, i, c, pad);
        if fail {
          return 0;
        }
        w := w / 2;
        i, c := i + 1, if ok then c - 1 else c;
      } else if d + 1 + UNCONDITIONAL_MATCHLEN + UNCOMPRESSED_END < size {
        var n := CopyLiterals(source, limit, dest, size, src, w, d, ok, x, ts, Codes(ts), i, c, pad);
        src, d, w := src + n, d + n, Shr(w, n);
        i, c := i + n, if ok then c - n else c;
      } else {
        if ok {
          OneLiteral(x, ts, s, Codes(ts), src, w, d, i, c, pad);
          AtTiles(x, ts, s, Codes(ts), src, w, d, i, c, pad);
          OnlyLiteralsLeft(x, ts, i);
        }
        var done := CopyTail(source, limit, dest, size, src, w, d, ok, x, ts, Codes(ts), i, c, pad);
        if !done {
          return 0;
        }
        return size;
      }
    }
  }
}

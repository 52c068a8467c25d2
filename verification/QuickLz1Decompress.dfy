/** qlz_decompress_core at level 1, with its bounds checks on. The decoder rebuilds the
    hash table from its own output, up to three bytes behind it. */
module QuickLz1Decompress {
  import opened Bytes
  import opened ControlWords
  import opened QuickLzTokens
  import opened QuickLz1
  import opened QuickLzReader
  import opened QuickLzCopy

  /** The stream spells `x` through the tokens `ts`. The stream may be longer than the
      layout, and has at least nine bytes. */
  ghost predicate Spells(s: seq<byte>, x: seq<byte>, hv: Buckets, ts: seq<Token>) {
    && |x| > 0 && |s| >= 9
    && Tiles(x, ts) && Resolves(x, hv, ts)
    && Layout(Codes(ts)) <= s
  }

  /** The decoder's table after entering the tokens `ts`; a bucket never entered may hold
      anything, for the table is not cleared. */
  ghost predicate Knows(table: seq<int>, x: seq<byte>, ts: seq<Token>)
    requires 0 < |table| <= MAX_HASH_VALUES
  {
    forall h :: 0 <= h < |table| && Latest(x, |table|, ts, h) >= 0 ==> table[h] == Latest(x, |table|, ts, h)
  }

  /** The tokens from `j` on start at consecutive places, up to place `last`. */
  ghost predicate Consecutive(ts: seq<Token>, j: nat, start: nat, last: int) {
    forall k :: j <= k <= j + (last - start) ==> k < |ts| && Span(ts[..k]) == start + (k - j)
  }

  /** update_hash_upto: enter every place from `lh` to `max`. */
  method UpdateHashUpto(dest: array<byte>, table: array<int>, lh: nat, max: int,
                        ghost ok: bool, ghost x: seq<byte>, ghost ts: seq<Token>, ghost j: nat)
    returns (lh': nat)
    requires 0 < table.Length <= MAX_HASH_VALUES && max + 3 <= dest.Length
    requires ok ==> j <= |ts| && Knows(table[..], x, ts[..j]) && Consecutive(ts, j, lh, max)
    requires ok ==> max + 3 <= |x| && forall p :: lh <= p < max + 3 ==> dest[p] == x[p]
    modifies table
    ensures lh' == if lh <= max then max + 1 else lh
    ensures ok ==> j + (lh' - lh) <= |ts| && Knows(table[..], x, ts[..j + (lh' - lh)])
  {
    hide Latest, Knows, HashFunc;
    lh' := lh;
    ghost var i := j;
    while lh' <= max
      invariant lh <= lh' && (lh' <= max + 1 || lh' == lh)
      invariant i == j + (lh' - lh)
      invariant ok ==> i <= |ts| && Knows(table[..], x, ts[..i])
    {
      var h := HashAt(dest[..], lh', table.Length);
      if ok {
        assert dest[..][lh'..lh' + 3] == x[lh'..lh' + 3];
        assert i < |ts| && Span(ts[..i]) == lh';
        EnterToken(table[..], x, ts, i, h);
        i := i + 1;
      } else {
        i := i + 1;
      }
      ghost var before := table[..];
      table[h] := lh';
      assert table[..] == before[h := lh' as int];
      lh' := lh' + 1;
    }
  }

  lemma EnterToken(table: seq<int>, x: seq<byte>, ts: seq<Token>, i: nat, h: nat)
    requires 0 < |table| <= MAX_HASH_VALUES && i < |ts|
    requires Knows(table, x, ts[..i])
    requires Span(ts[..i]) + 3 <= |x| && h == Hash1(x, |table|, Span(ts[..i]))
    ensures Knows(table[h := Span(ts[..i])], x, ts[..i + 1])
  {
    assert ts[..i + 1][..i] == ts[..i];
  }

  // ----- What the decoder knows before token i

  ghost predicate Holding(x: seq<byte>, ts: seq<Token>, s: seq<byte>, out: seq<byte>, table: seq<int>,
                          src: nat, w: nat, d: nat, lh: nat, i: nat, c: nat, pad: nat)
    requires 0 < |table| <= MAX_HASH_VALUES
  {
    && At(x, ts, s, Codes(ts), src, w, d, i, c, pad) && Resolves(x, |table|, ts)
    && i <= |ts| && d <= |x| <= |out| && out[..d] == x[..d]
    && d == lh + Lag(ts[..i]) && Knows(table, x, Lagged(ts[..i]))
  }

  lemma CodesEncode(ts: seq<Token>)
    ensures Encodes(ts, Codes(ts))
  {
  }

  lemma HoldingFirst(x: seq<byte>, ts: seq<Token>, s: seq<byte>, out: seq<byte>, table: seq<int>, src: nat)
    requires 0 < |table| <= MAX_HASH_VALUES && src <= |s| && |x| <= |out|
    requires Spells(s[src..], x, |table|, ts)
    ensures Holding(x, ts, s, out, table, src, 1, 0, 0, 0, 0, 0)
  {
    hide At, Layout;
    CodesEncode(ts);
    AtFirst(x, ts, s, Codes(ts), src);
    assert ts[..0] == [] && Lagged([]) == [];
  }

  /** The last `Lag` tokens are literals, so they start one place apart. */
  lemma LagConsecutive(ts: seq<Token>, i: nat)
    requires i <= |ts|
    ensures var lag := Lag(ts[..i]);
            && lag <= Span(ts[..i])
            && (i < |ts| ==> Consecutive(ts, i - lag, Span(ts[..i]) - lag, Span(ts[..i])))
            && (forall k :: i - lag <= k < i ==> ts[k].Literal?)
  {
    var pre := ts[..i];
    if Lits(pre) >= 1 {
      assert pre[..i - 1] == ts[..i - 1];
      if Lits(pre) >= 2 {
        assert Lits(ts[..i - 1]) >= 1;
        assert ts[..i - 1][..i - 2] == ts[..i - 2];
      }
    }
  }

  /** What the decoder reads at a match: the bucket, the length, and in the table the
      place that TableAgreement speaks of. Its two checks pass. */
  lemma AtMatch(x: seq<byte>, ts: seq<Token>, s: seq<byte>, out: seq<byte>, table: seq<int>,
                src: nat, w: nat, d: nat, lh: nat, i: nat, c: nat, pad: nat)
    requires 0 < |table| <= MAX_HASH_VALUES
    requires Holding(x, ts, s, out, table, src, w, d, lh, i, c, pad)
    requires i < |ts| && w % 2 == 1 && w != 1 && src + 4 <= |s|
    ensures c > 0 && ts[i].Match? && d == Span(ts[..i])
    ensures var (hash, len, used) := ReadMatch(FastRead(s, src, 4), s[src + 2]);
            && hash < |table| && 0 <= table[hash] <= d - MINOFFSET - 1
            && len == ts[i].len && d + len + UNCOMPRESSED_END <= |x|
            && Copies(x, table[hash], d, len)
            && At(x, ts, s, Codes(ts), src + used, w / 2, d + len, i + 1, c - 1, pad)
  {
    hide At, Latest, Lag, Lits, Le, FromLe;
    AtToken(x, ts, s, Codes(ts), src, w, d, i, c, pad);
    assert Codes(ts)[i] == Code(ts[i]);
    assert ResolvesAt(x, |table|, ts, i);
    ReadsWhatWasCoded(s, src, ts[i]);
  }

  /** After a match the table has caught up with the match's own start. */
  lemma AfterMatch(x: seq<byte>, ts: seq<Token>, i: nat)
    requires i < |ts| && ts[i].Match?
    ensures Lagged(ts[..i + 1]) == ts[..i + 1] && Lag(ts[..i + 1]) == 0
  {
  }

  /** One match. Unless the stream is known to spell a text, every bucket it can name must be
      there. */
  method MatchRound(words: bool, source: seq<byte>, limit: nat, dest: array<byte>, size: nat, table: array<int>,
                    src: nat, w: nat, d: nat, lh: nat,
                    ghost ok: bool, ghost x: seq<byte>, ghost ts: seq<Token>, ghost i: nat, ghost c: nat,
                    ghost pad: nat)
    returns (fail: bool, src': nat, d': nat, lh': nat)
    requires src + 4 <= limit <= |source| && size <= dest.Length && 0 < table.Length <= MAX_HASH_VALUES
    requires dest as object != table
    requires size < 0x1_0000_0000
    requires d <= size && (d == 0 || d + UNCOMPRESSED_END <= size) && lh <= d
    requires w % 2 == 1 && (ok || table.Length == MAX_HASH_VALUES)
    requires ok ==> |x| == size && i < |ts| && w != 1
                    && Holding(x, ts, source[..limit], dest[..], table[..], src, w, d, lh, i, c, pad)
    modifies dest, table
    ensures !fail ==> src < src' <= src + 4 && d <= d' && 0 < d' && d' + UNCOMPRESSED_END <= size && lh' <= d'
    ensures ok ==> !fail && c > 0
                   && Holding(x, ts, source[..limit], dest[..], table[..], src', w / 2, d', lh', i + 1, c - 1, pad)
    ensures forall k :: size <= k < dest.Length ==> dest[k] == old(dest[k])
  {
    hide Layout, Latest, Word, Lits, Le, FromLe, At, Resolves, Lag, Copies, ReadMatch, Consecutive;
    var (hash, matchlen, used) := ReadMatch(FastRead(source, src, 4), source[src + 2]);
    ghost var s := source[..limit];
    ghost var j := if ok then i - Lag(ts[..i]) else 0;
    if ok {
      assert Lagged(ts[..i]) == ts[..j];
      assert s[src..src + 4] == source[src..src + 4];
      AtMatch(x, ts, s, dest[..], table[..], src, w, d, lh, i, c, pad);
    }
    var offset2 := table[hash];
    if offset2 < 0 || offset2 > d - MINOFFSET - 1 {
      return true, src, d, lh;
    }
    if matchlen > (size - UNCOMPRESSED_END - d) % 0x1_0000_0000 {
      return true, src, d, lh;
    }
    CopyMatch(words, dest, d, offset2, matchlen);
    if ok {
      CopyAgrees(dest[..], x, offset2, d, matchlen);
      LagConsecutive(ts, i);
    }
    d' := d + matchlen;
    src' := src + used;
    lh' := UpdateHashUpto(dest, table, lh, d' - matchlen, ok, x, ts, j);
    if ok {
      AfterMatch(x, ts, i);
    }
    lh' := d';
    fail := false;
  }

  lemma {:induction false} LiteralSpan(ts: seq<Token>, j: nat, k: nat)
    requires j <= k <= |ts| && forall m :: j <= m < k ==> ts[m].Literal?
    ensures Span(ts[..k]) == Span(ts[..j]) + (k - j)
    ensures Lits(ts[..k]) == Lits(ts[..j]) + (k - j)
    decreases k - j
  {
    if j < k {
      LiteralSpan(ts, j, k - 1);
      SpanStep(ts, k - 1);
      assert ts[..k][..k - 1] == ts[..k - 1];
    }
  }

  /** Literals move the table's frontier along, two places behind the output. */
  lemma LiteralsConsecutive(ts: seq<Token>, i: nat, n: nat)
    requires 1 <= n && i + n <= |ts| && forall m :: i <= m < i + n ==> ts[m].Literal?
    ensures var lag, d := Lag(ts[..i]), Span(ts[..i]);
            && lag <= d
            && Consecutive(ts, i - lag, d - lag, d + n - 3)
            && Span(ts[..i + n]) == d + n
            && Lag(ts[..i + n]) == (if lag + n <= 2 then lag + n else 2)
  {
    var lag, d := Lag(ts[..i]), Span(ts[..i]);
    LagConsecutive(ts, i);
    LiteralSpan(ts, i, i + n);
    LiteralSpan(ts, i - lag, i);
    forall k | i - lag <= k <= i - lag + (d + n - 3 - (d - lag))
      ensures k < |ts| && Span(ts[..k]) == d - lag + (k - (i - lag))
    {
      LiteralSpan(ts, i - lag, k);
    }
  }

  /** A run of literals, after which the table follows up to two places behind the output. */
  method LiteralRound(source: seq<byte>, limit: nat, dest: array<byte>, size: nat, table: array<int>,
                      src: nat, w: nat, d: nat, lh: nat,
                      ghost ok: bool, ghost x: seq<byte>, ghost ts: seq<Token>, ghost i: nat, ghost c: nat,
                      ghost pad: nat)
    returns (n: nat, lh': nat)
    requires src + 4 <= limit <= |source| && size <= dest.Length && 0 < table.Length <= MAX_HASH_VALUES
    requires dest as object != table
    requires d + 1 + UNCONDITIONAL_MATCHLEN + UNCOMPRESSED_END < size && lh <= d
    requires w % 2 == 0
    requires ok ==> |x| == size && i < |ts| && w != 1
                    && Holding(x, ts, source[..limit], dest[..], table[..], src, w, d, lh, i, c, pad)
    modifies dest, table
    ensures 1 <= n <= 4 && lh' <= d + n
    ensures ok ==> n <= c && Holding(x, ts, source[..limit], dest[..], table[..],
                                     src + n, Shr(w, n), d + n, lh', i + n, c - n, pad)
    ensures forall k :: size <= k < dest.Length ==> dest[k] == old(dest[k])
  {
    hide Layout, Latest, Word, Lits, At, Resolves, Lag, Shr, Knows, Codes;
    ghost var j := if ok then i - Lag(ts[..i]) else 0;
    if ok {
      AtInside(x, ts, source[..limit], Codes(ts), src, w, d, i, c, pad);
    }
    n := CopyLiterals(source, limit, dest, size, src, w, d, ok, x, ts, Codes(ts), i, c, pad);
    if ok {
      assert Lagged(ts[..i]) == ts[..j];
      LiteralsConsecutive(ts, i, n);
      assert forall p :: lh <= p < d + n ==> dest[p] == dest[..d + n][p] == x[p];
    }
    lh' := UpdateHashUpto(dest, table, lh, d + n - 3, ok, x, ts, j);
    if ok {
      assert Lagged(ts[..i + n]) == ts[..j + (lh' - lh)];
    }
  }

  /** The whole of qlz_decompress_core, copying matches byte-wise or in words. It never writes
      past `size`, whatever the stream; and a stream that spells `x` is never rejected and
      yields `x`. */
  method DecompressCore(words: bool, source: seq<byte>, dest: array<byte>, size: nat, table: array<int>,
                        ghost x: seq<byte>, ghost ts: seq<Token>) returns (r: nat)
    requires |source| >= 1 && |source| >= HeaderSize(source) && SizeCompressed(source) <= |source|
    requires size <= dest.Length && size < 0x1_0000_0000
    requires 0 < table.Length <= MAX_HASH_VALUES && dest as object != table
    requires table.Length == MAX_HASH_VALUES
             || (HeaderSize(source) <= SizeCompressed(source) && |x| == size
                 && Spells(source[HeaderSize(source)..SizeCompressed(source)], x, table.Length, ts))
    modifies dest, table
    ensures r == 0 || r == size
    ensures HeaderSize(source) <= SizeCompressed(source) && |x| == size
            && Spells(source[HeaderSize(source)..SizeCompressed(source)], x, table.Length, ts)
            ==> r == size && dest[..size] == x
    ensures forall k :: size <= k < dest.Length ==> dest[k] == old(dest[k])
  {
    hide Layout, Latest, Word, Lits, At, Resolves, Lag, Shr, Knows, Tiles, FromLe, HeaderSize;
    var limit := SizeCompressed(source);
    var h := HeaderSize(source);
    var src: nat, w: nat, d: nat, lh: nat := h, 1, 0, 0;
    ghost var i: nat, c: nat, pad: nat := 0, 0, 0;
    ghost var s := source[..limit];
    ghost var ok := h <= limit && |x| == size && Spells(source[h..limit], x, table.Length, ts);
    if ok {
      assert s[h..] == source[h..limit];
      HoldingFirst(x, ts, s, dest[..], table[..], h);
    }
    while true
      invariant h <= src && d <= size && lh <= d
      invariant d == 0 ==> src == h && w == 1
      invariant d > 0 ==> d + UNCOMPRESSED_END <= size
      invariant ok ==> h + 9 <= limit && |x| == size > 0
      invariant ok ==> Holding(x, ts, s, dest[..], table[..], src, w, d, lh, i, c, pad)
      invariant forall k :: size <= k < dest.Length ==> dest[k] == old(dest[k])
      decreases |source| - src
    {
      if ok {
        AtInside(x, ts, s, Codes(ts), src, w, d, i, c, pad);
      }
      var fail;
      fail, src, w, c, pad := LoadWord(source, limit, src, w, ok, x, ts, Codes(ts), d, i, c, pad);
      if fail {
        return 0;
      }
      if ok && d > 0 {
        FetchStaysInside(x, ts, s, Codes(ts), src, w, d, i, c, pad);
      }
      if src + 4 - 1 > limit - 1 {
        return 0;
      }
      if w % 2 == 1 {
        fail, src, d, lh := MatchRound(words, source, limit, dest, size, table, src, w, d, lh, ok, x, ts, i, c, pad);
        if fail {
          return 0;
        }
        w := w / 2;
        i, c := i + 1, if ok then c - 1 else c;
      } else if d + 1 + UNCONDITIONAL_MATCHLEN + UNCOMPRESSED_END < size {
        var n;
        n, lh := LiteralRound(source, limit, dest, size, table, src, w, d, lh, ok, x, ts, i, c, pad);
        src, d, w := src + n, d + n, Shr(w, n);
        i, c := i + n, if ok then c - n else c;
      } else {
        if ok {
          OneLiteral(x, ts, s, Codes(ts), src, w, d, i, c, pad);
          AtTiles(x, ts, s, Codes(ts), src, w, d, i, c, pad);
          OnlyLiteralsLeft(x, ts, i);
        }
        var done := CopyTail(source, limit, dest, size, src, w, d, ok, x, ts, Codes(ts), i, c, pad);
        if !done {
          return 0;
        }
        lh := UpdateHashUpto(dest, table, lh, size - 4, false, x, ts, 0);
        return size;
      }
    }
  }
}

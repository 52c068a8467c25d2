/** QuickLZ level 1: a match names a hash bucket instead of a distance. The tokens
    are a function of the text; the table lookup of the decoder, which lags behind,
    is shown to find bytes equal to those the compressor matched. */
module QuickLz1 {
  import opened Bytes
  import opened ControlWords
  import opened QuickLzTokens

  /** The stream keeps twelve bits for the bucket, so a table has at most this many. */
  const MAX_HASH_VALUES := 4096

  /** QLZ_HASH_VALUES, the number of buckets. */
  type Buckets = n: nat | 0 < n <= MAX_HASH_VALUES witness 1

  function Hash1(x: seq<byte>, hv: Buckets, d: nat): (h: nat)
    requires d + 3 <= |x|
    ensures h < hv
  {
    HashAt(x, d, hv)
  }

  /** The bucket's content once every token of `ts` has been entered under the hash
      of its first three bytes: the last such start, or -1 for an empty bucket. */
  function Latest(x: seq<byte>, hv: Buckets, ts: seq<Token>, h: nat): (p: int)
    ensures -1 <= p
    ensures p <= Span(ts)
    ensures 0 <= p ==> p + 3 <= |x| && Hash1(x, hv, p) == h
  {
    if ts == [] then -1
    else
      var init := ts[..|ts| - 1];
      var d := Span(init);
      if d + 3 <= |x| && Hash1(x, hv, d) == h then d else Latest(x, hv, init, h)
  }

  /** Token `j` starts at `p`, three bytes before the end or earlier, and falls into `h`. */
  ghost predicate StartsIn(x: seq<byte>, hv: Buckets, ts: seq<Token>, h: nat, j: nat, p: int)
    requires j < |ts|
  {
    p == Span(ts[..j]) && p + 3 <= |x| && Hash1(x, hv, p) == h
  }

  /** A bucket holds the last start that falls into it, and is empty only if none does. */
  lemma {:induction false} LatestIsLast(x: seq<byte>, hv: Buckets, ts: seq<Token>, h: nat)
    ensures var p := Latest(x, hv, ts, h);
            && (p >= 0 ==> exists j: nat :: j < |ts| && StartsIn(x, hv, ts, h, j, p))
            && forall j: nat :: j < |ts| && p < Span(ts[..j]) ==> !StartsIn(x, hv, ts, h, j, Span(ts[..j]))
  {
    hide Hash1;
    if ts != [] {
      var n := |ts| - 1;
      var init := ts[..n];
      var p := Latest(x, hv, ts, h);
      LatestIsLast(x, hv, init, h);
      if p >= 0 {
        if StartsIn(x, hv, ts, h, n, p) {
        } else {
          var j: nat :| j < |init| && StartsIn(x, hv, init, h, j, p);
          assert init[..j] == ts[..j];
          assert StartsIn(x, hv, ts, h, j, p);
        }
      }
      forall j: nat | j < |ts| && p < Span(ts[..j]) ensures !StartsIn(x, hv, ts, h, j, Span(ts[..j])) {
        if j < n {
          assert init[..j] == ts[..j];
          LatestBefore(x, hv, ts, h);
        }
      }
    }
  }

  lemma LatestBefore(x: seq<byte>, hv: Buckets, ts: seq<Token>, h: nat)
    requires ts != []
    ensures Latest(x, hv, ts[..|ts| - 1], h) <= Latest(x, hv, ts, h)
  {
  }

  /** Number of literals since the last match. */
  function Lits(ts: seq<Token>): (n: nat)
    ensures n <= |ts|
  {
    if ts == [] || ts[|ts| - 1].Match? then 0 else 1 + Lits(ts[..|ts| - 1])
  }

  /** same(src, n): bytes src .. src + n are equal. */
  predicate Same(x: seq<byte>, p: nat, n: nat)
    requires p + n < |x|
  {
    forall k :: p < k <= p + n ==> x[k] == x[p]
  }

  /** The bucket found at position `d` is good enough for a match. */
  predicate Usable(x: seq<byte>, pre: seq<Token>, o: int)
    requires MainPart(x, Span(pre)) && -1 <= o && (0 <= o ==> o + 3 <= |x|)
  {
    var d := Span(pre);
    && 0 <= o
    && Fetch(x, o) == Fetch(x, d)
    && (d - o > MINOFFSET || (d == o + 1 && Lits(pre) >= 3 && d > 3 && Same(x, d - 3, 6)))
  }

  /** The token the compressor emits after the tokens `pre`. */
  function Choose(x: seq<byte>, hv: Buckets, pre: seq<Token>): Token
    requires Span(pre) < |x|
  {
    var d := Span(pre);
    if !MainPart(x, d) then Literal(x[d])
    else
      var h := Hash1(x, hv, d);
      var o := Latest(x, hv, pre, h);
      if Usable(x, pre, o) then Match(h, Extent(x, o, d, 3, Cap(x, d))) else Literal(x[d])
  }

  /** `ts` is a beginning of the compressor's parse of `x`. */
  ghost predicate Parse(x: seq<byte>, hv: Buckets, ts: seq<Token>) {
    forall i :: 0 <= i < |ts| ==> Span(ts[..i]) < |x| && ts[i] == Choose(x, hv, ts[..i])
  }

  lemma ParseSnoc(x: seq<byte>, hv: Buckets, ts: seq<Token>)
    requires Parse(x, hv, ts) && Span(ts) < |x|
    ensures Parse(x, hv, ts + [Choose(x, hv, ts)])
  {
    var us := ts + [Choose(x, hv, ts)];
    forall i | 0 <= i < |us| ensures Span(us[..i]) < |x| && us[i] == Choose(x, hv, us[..i]) {
      if i < |ts| {
        assert us[..i] == ts[..i];
        assert ts[i] == Choose(x, hv, ts[..i]);
      } else {
        assert us[..i] == ts;
      }
    }
  }

  lemma {:induction false} LitsAtLeast(ts: seq<Token>, n: nat)
    requires n <= |ts|
    ensures Lits(ts) >= n <==> forall j :: |ts| - n <= j < |ts| ==> ts[j].Literal?
  {
    if n > 0 {
      var m := |ts| - 1;
      LitsAtLeast(ts[..m], n - 1);
      if ts[m].Literal? && Lits(ts) >= n {
        forall j | |ts| - n <= j < |ts| ensures ts[j].Literal? {
          if j < m {
            assert ts[j] == ts[..m][j];
          }
        }
      }
    }
  }

  /** Byte `d` and the three before and after it are one letter, written by the last three
      tokens and still to come. */
  ghost predicate InRun(x: seq<byte>, ts: seq<Token>, i: nat, d: nat)
    requires i <= |ts| && d + 4 <= |x|
  {
    && d > 3 && i >= 3 && ts[i - 1].Literal? && ts[i - 2].Literal? && ts[i - 3].Literal?
    && x[d - 3] == x[d - 2] == x[d - 1] == x[d] == x[d + 1] == x[d + 2] == x[d + 3]
  }

  lemma UsableIff(x: seq<byte>, ts: seq<Token>, i: nat, o: int)
    requires i <= |ts| && MainPart(x, Span(ts[..i])) && -1 <= o < Span(ts[..i])
    ensures var d := Span(ts[..i]);
            Usable(x, ts[..i], o) <==>
            && o >= 0 && x[o] == x[d] && x[o + 1] == x[d + 1] && x[o + 2] == x[d + 2]
            && (o <= d - 3 || (o == d - 1 && InRun(x, ts, i, d)))
  {
    var d := Span(ts[..i]);
    if o >= 0 {
      SameThree(x, o, d);
    }
    if i >= 3 {
      LitsAtLeast(ts[..i], 3);
    }
    if d > 3 {
      SevenEqual(x, d - 3);
    }
  }

  lemma SevenEqual(x: seq<byte>, p: nat)
    requires p + 6 < |x|
    ensures Same(x, p, 6) <==> x[p] == x[p + 1] == x[p + 2] == x[p + 3] == x[p + 4] == x[p + 5] == x[p + 6]
  {
  }

  /** The parse takes a match exactly when eleven bytes are left and the bucket holds a
      place with the same three bytes, three or more back or one back in a run. */
  lemma MatchIff(x: seq<byte>, hv: Buckets, ts: seq<Token>, i: nat)
    requires Parse(x, hv, ts) && i < |ts|
    ensures var d := Span(ts[..i]);
            ts[i].Match? <==>
            && d + 11 <= |x|
            && var o := Latest(x, hv, ts[..i], Hash1(x, hv, d));
            && o >= 0 && x[o] == x[d] && x[o + 1] == x[d + 1] && x[o + 2] == x[d + 2]
            && (o <= d - 3 || (o == d - 1 && InRun(x, ts, i, d)))
  {
    hide Hash1, Usable;
    var d := Span(ts[..i]);
    assert ts[i] == Choose(x, hv, ts[..i]);
    if MainPart(x, d) {
      var o := Latest(x, hv, ts[..i], Hash1(x, hv, d));
      LatestEarlier(x, hv, ts[..i], Hash1(x, hv, d));
      UsableIff(x, ts, i, o);
    }
  }

  lemma LatestEarlier(x: seq<byte>, hv: Buckets, ts: seq<Token>, h: nat)
    ensures Latest(x, hv, ts, h) < Span(ts) || ts == []
  {
  }

  /** A match names its own bucket and goes as far as the bytes agree: up to 255 bytes and
      to the last four of the text. */
  lemma MatchTaken(x: seq<byte>, hv: Buckets, ts: seq<Token>, i: nat)
    requires Parse(x, hv, ts) && i < |ts| && ts[i].Match?
    ensures var d, t := Span(ts[..i]), ts[i];
            && d + 11 <= |x| && t.ref == Hash1(x, hv, d)
            && var o := Latest(x, hv, ts[..i], t.ref);
            && 0 <= o <= d && d + t.len + 4 <= |x| && Copies(x, o, d, t.len)
            && (t.len == 255 || d + t.len + 4 == |x| || x[o + t.len] != x[d + t.len])
  {
    hide Hash1, Latest, Extent, Fetch;
    var d := Span(ts[..i]);
    assert ts[i] == Choose(x, hv, ts[..i]);
    var o := Latest(x, hv, ts[..i], Hash1(x, hv, d));
    SameFetch(x, o, d);
    ExtentLongest(x, o, d, 3, Cap(x, d));
  }

  /** The tokens whose first three bytes are known before the next token: all but
      the last two when those are literals. */
  function Lagged(ts: seq<Token>): (r: seq<Token>)
    ensures |r| <= |ts| <= |r| + 2 && r == ts[..|r|]
  {
    ts[..|ts| - Lag(ts)]
  }

  function Lag(ts: seq<Token>): (n: nat)
    ensures n <= |ts| && n <= 2
  {
    if Lits(ts) < 2 then Lits(ts) else 2
  }

  /** Where the decoder copies token `i` from. */
  function Source(x: seq<byte>, hv: Buckets, ts: seq<Token>, i: nat): int
    requires i < |ts| && ts[i].Match?
  {
    Latest(x, hv, Lagged(ts[..i]), ts[i].ref)
  }

  /** Every match names a twelve-bit bucket that, in the lagging table, holds an
      earlier place with the same bytes. */
  ghost predicate Resolves(x: seq<byte>, hv: Buckets, ts: seq<Token>) {
    forall i :: 0 <= i < |ts| && ts[i].Match? ==> ResolvesAt(x, hv, ts, i)
  }

  ghost predicate ResolvesAt(x: seq<byte>, hv: Buckets, ts: seq<Token>, i: nat)
    requires i < |ts| && ts[i].Match?
  {
    var d, p := Span(ts[..i]), Source(x, hv, ts, i);
    && ts[i].ref < hv
    && 0 <= p <= d - MINOFFSET - 1
    && d + ts[i].len <= |x|
    && Copies(x, p, d, ts[i].len)
  }

  // ----- Table agreement

  /** Dropping the last literal removes only the start just behind the reader. */
  lemma LatestDropLiteral(x: seq<byte>, hv: Buckets, ts: seq<Token>, h: nat)
    requires ts != [] && ts[|ts| - 1].Literal?
    requires Latest(x, hv, ts, h) != Span(ts) - 1
    ensures Latest(x, hv, ts[..|ts| - 1], h) == Latest(x, hv, ts, h)
  {
  }

  /** A place at least three bytes back is still found by the lagging table. */
  lemma FarAgreement(x: seq<byte>, hv: Buckets, pre: seq<Token>, h: nat)
    requires 0 <= Latest(x, hv, pre, h) && Span(pre) - Latest(x, hv, pre, h) > MINOFFSET
    ensures Latest(x, hv, Lagged(pre), h) == Latest(x, hv, pre, h)
  {
    if Lits(pre) == 0 {
      assert Lagged(pre) == pre;
    } else {
      var pre1 := pre[..|pre| - 1];
      LatestDropLiteral(x, hv, pre, h);
      assert Lits(pre) == 1 + Lits(pre1);
      if Lits(pre) == 1 {
        assert Lagged(pre) == pre1;
      } else {
        LatestDropLiteral(x, hv, pre1, h);
        assert Lagged(pre) == pre1[..|pre1| - 1];
      }
    }
  }

  /** In a run of one byte the lagging table finds the start three back. */
  lemma RunAgreement(x: seq<byte>, hv: Buckets, pre: seq<Token>)
    requires MainPart(x, Span(pre)) && Lits(pre) >= 3 && Span(pre) > 3
    requires Same(x, Span(pre) - 3, 6)
    ensures Latest(x, hv, Lagged(pre), Hash1(x, hv, Span(pre))) == Span(pre) - 3
  {
    var d := Span(pre);
    var pre1 := pre[..|pre| - 1];
    var pre2 := pre1[..|pre1| - 1];
    var pre3 := pre2[..|pre2| - 1];
    assert Lits(pre) == 1 + Lits(pre1) && Lits(pre1) == 1 + Lits(pre2);
    assert Lits(pre2) == 1 + Lits(pre3);
    assert Lagged(pre) == pre2;
    assert Span(pre1) == d - 1 && Span(pre2) == d - 2;
    assert Span(pre3) == d - 3;
    SameFetch(x, d - 3, d);
  }

  /** Copying from one back through a run equals copying from three back. */
  lemma {:induction false} RunCopies(x: seq<byte>, d: nat, len: nat)
    requires d >= 3 && d + 3 < |x| && d + len <= |x| && Same(x, d - 3, 6)
    requires Copies(x, d - 1, d, len)
    ensures forall k :: d - 3 <= k < d + len ==> x[k] == x[d]
    ensures Copies(x, d - 3, d, len)
  {
    if len == 0 {
      assert x[d] == x[d - 3];
    } else {
      RunCopies(x, d, len - 1);
      assert x[d + len - 1] == x[d + len - 2];
    }
  }

  /** The theorem behind level 1: although the decoder's table lags behind the
      compressor's, what it finds reproduces the matched bytes. */
  lemma TableAgreement(x: seq<byte>, hv: Buckets, ts: seq<Token>, i: nat)
    requires Parse(x, hv, ts) && i < |ts| && ts[i].Match?
    ensures ResolvesAt(x, hv, ts, i)
    ensures Fits(x, Span(ts[..i]), ts[i])
    ensures var pre := ts[..i];
            var o := Latest(x, hv, pre, ts[i].ref);
            && (Span(pre) - o > MINOFFSET ==> Source(x, hv, ts, i) == o)
            && (Span(pre) - o <= MINOFFSET ==> Source(x, hv, ts, i) == Span(pre) - 3 && o == Span(pre) - 1)
  {
    var pre := ts[..i];
    var d := Span(pre);
    assert ts[i] == Choose(x, hv, pre);
    var h := Hash1(x, hv, d);
    var o := Latest(x, hv, pre, h);
    SameFetch(x, o, d);
    assert o <= d;
    ExtentLongest(x, o, d, 3, Cap(x, d));
    if d - o > MINOFFSET {
      FarAgreement(x, hv, pre, h);
    } else {
      RunAgreement(x, hv, pre);
      RunCopies(x, d, ts[i].len);
    }
  }

  lemma ParseResolves(x: seq<byte>, hv: Buckets, ts: seq<Token>)
    requires Parse(x, hv, ts)
    ensures Resolves(x, hv, ts)
    ensures Span(ts) == |x| ==> Tiles(x, ts)
  {
    forall i | 0 <= i < |ts| && ts[i].Match? ensures ResolvesAt(x, hv, ts, i) {
      TableAgreement(x, hv, ts, i);
    }
    forall i | 0 <= i < |ts| ensures Fits(x, Span(ts[..i]), ts[i]) {
      assert ts[i] == Choose(x, hv, ts[..i]);
      if ts[i].Match? {
        TableAgreement(x, hv, ts, i);
      }
    }
  }

  // ----- Token bytes

  /** Two bytes for lengths 3 to 17, otherwise a third byte holds the length. */
  function Code(t: Token): (c: Chunk)
    ensures c.isMatch == t.Match?
    ensures |c.body| >= 1 && |c.body| <= 3
  {
    match t
    case Literal(b) => Chunk(false, [b])
    case Match(h, len) =>
      if len < 18 then Chunk(true, Le(len - 2 + 16 * h, 2))
      else Chunk(true, Le(0x1_0000 * len + 16 * h, 3))
  }

  function Codes(ts: seq<Token>): (cs: seq<Chunk>)
    ensures |cs| == |ts|
    ensures forall i :: 0 <= i < |cs| ==> |cs[i].body| >= 1
  {
    seq(|ts|, i requires 0 <= i < |ts| => Code(ts[i]))
  }

  lemma CodesSnoc(ts: seq<Token>, t: Token)
    ensures Codes(ts + [t]) == Codes(ts) + [Code(t)]
  {
  }

  /** The decoder's reading of a match token: bucket, length, bytes used. */
  function ReadMatch(fetch: nat, third: byte): (r: (nat, nat, nat))
    ensures r.0 < MAX_HASH_VALUES && 2 <= r.2 <= 3
  {
    var hash := fetch / 16 % 0x1000;
    if fetch % 16 != 0 then (hash, fetch % 16 + 2, 2) else (hash, third, 3)
  }

  /** Every token there can be names a bucket of the table exactly when the table has all
      4096 of them. */
  lemma FullTableNeeded(hv: Buckets)
    ensures hv == MAX_HASH_VALUES <==> forall fetch: nat, third: byte :: ReadMatch(fetch, third).0 < hv
  {
    assert ReadMatch(0xFFFF, 0).0 == 0xFFF;
  }

  lemma ReadMatchDigits(v: nat, hi: nat, third: byte)
    requires v < 0x1_0000
    ensures ReadMatch(v + 0x1_0000 * hi, third)
         == (v / 16, if v % 16 != 0 then v % 16 + 2 else third, if v % 16 != 0 then 2 else 3)
  {
    DivMod(v + 0x1_0000 * hi, 16, v / 16 + 0x1000 * hi, v % 16);
    DivMod(v / 16 + 0x1000 * hi, 0x1000, hi, v / 16);
  }

  lemma CodeDigits(t: Token)
    requires t.Match? && t.ref < MAX_HASH_VALUES
    ensures var body := Code(t).body;
            && body[0] + 0x100 * (body[1] as int) == (if t.len < 18 then t.len - 2 else 0) + 16 * t.ref
            && (t.len >= 18 ==> body[2] == t.len)
  {
    if t.len < 18 {
      Le2(t.len - 2 + 16 * t.ref);
    } else {
      Le3(t.len, 16 * t.ref);
    }
  }

  lemma ReadsWhatWasCoded(s: seq<byte>, src: nat, t: Token)
    requires t.Match? && t.ref < MAX_HASH_VALUES
    requires src + 4 <= |s|
    requires s[src..src + |Code(t).body|] == Code(t).body
    ensures ReadMatch(FastRead(s, src, 4), s[src + 2]) == (t.ref, t.len, |Code(t).body|)
  {
    hide ReadMatch, FromLe, Le;
    var w := s[src..src + 4];
    var body := Code(t).body;
    FromLe4(w);
    assert w[0] == s[src..src + |body|][0] == body[0] && w[1] == s[src..src + |body|][1] == body[1];
    if t.len >= 18 {
      assert s[src + 2] == s[src..src + |body|][2] == body[2];
    }
    CodeDigits(t);
    ReadMatchDigits(w[0] + 0x100 * (w[1] as int), w[2] + 0x100 * (w[3] as int), s[src + 2]);
  }
}

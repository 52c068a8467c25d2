/** qlz_compress_core at level 1: the hash table and the output are arrays updated
    in place; the ghost token list follows the parse of QuickLz1. */
module QuickLz1Compress {
  import opened Bytes
  import opened ControlWords
  import opened QuickLzTokens
  import opened QuickLz1
  import opened QuickLzWriter
  import opened QuickLzProgress

  /** qlz_state_compress: per bucket the last position entered (-1 for the null
      pointer) and the three bytes read there. */
  class CompressState {
    const offset: array<int>
    const cache: array<nat>
    const hv: Buckets

    /** The cache starts with whatever the memory held. */
    constructor (hv: Buckets)
      ensures this.hv == hv && Shape() && fresh(offset) && fresh(cache)
    {
      this.hv := hv;
      offset := new int[hv];
      cache := new nat[hv];
    }

    ghost predicate Shape() {
      && offset.Length == hv && cache.Length == hv
      && offset as object != cache
    }

    /** The table after the tokens `ts`. A bucket that holds a position also caches
        that position's bytes; nothing is known of the other caches. */
    ghost predicate Holds(x: seq<byte>, ts: seq<Token>)
      requires Shape()
      reads offset, cache
    {
      && (forall h :: 0 <= h < hv ==> offset[h] == Latest(x, hv, ts, h))
      && (forall h :: 0 <= h < hv && offset[h] >= 0 ==> cache[h] == Fetch(x, offset[h]))
    }

    /** reset_table_compress: the cache is left alone. */
    method Reset(x: seq<byte>)
      requires Shape()
      modifies offset
      ensures Holds(x, [])
    {
      for i := 0 to hv
        invariant forall h :: 0 <= h < i ==> offset[h] == -1
      {
        offset[i] := -1;
      }
    }

    /** Look the next three bytes up and enter the current position instead. */
    method Exchange(x: seq<byte>, src: nat, fetch: nat, ghost ts: seq<Token>, ghost t: Token)
      returns (h: nat, o: int, cached: bool)
      requires Shape() && Holds(x, ts)
      requires Span(ts) == src && src + 3 <= |x| && fetch == Fetch(x, src)
      modifies offset, cache
      ensures Holds(x, ts + [t])
      ensures h == Hash1(x, hv, src) && o == Latest(x, hv, ts, h)
      ensures o >= 0 ==> (cached <==> Fetch(x, o) == fetch)
    {
      h := HashFunc(fetch, hv);
      cached := fetch == cache[h];
      cache[h] := fetch;
      o := offset[h];
      offset[h] := src;
      assert (ts + [t])[..|ts|] == ts;
    }
  }

  /** same() counts down from the far end. */
  method CheckSame(x: seq<byte>, p: nat, n: nat) returns (same: bool)
    requires p + n < |x|
    ensures same <==> Same(x, p, n)
  {
    var k := n;
    while k > 0 && x[p + k] == x[p]
      invariant 0 <= k <= n
      invariant forall j :: p + k < j <= p + n ==> x[j] == x[p]
    {
      k := k - 1;
    }
    same := k == 0;
  }

  /** The length of a match whose first three bytes agree. The cap is only looked at
      from the seventh byte on, which it always allows. */
  method MatchLength(x: seq<byte>, o: nat, src: nat) returns (len: nat)
    requires MainPart(x, src) && o < src
    ensures len == Extent(x, o, src, 3, Cap(x, src))
  {
    if x[o + 3] != x[src + 3] {
      return 3;
    }
    ghost var cap := Cap(x, src);
    assert Extent(x, o, src, 3, cap) == Extent(x, o, src, 4, cap);
    len := 4;
    if x[o + 4] == x[src + 4] {
      len := 5;
      assert Extent(x, o, src, 4, cap) == Extent(x, o, src, 5, cap);
      if x[o + 5] == x[src + 5] {
        var q := |x| - 1 - UNCOMPRESSED_END - src + 1;
        var remaining := if q > 255 then 255 else q;
        len := 6;
        assert remaining == cap;
        assert Extent(x, o, src, 5, cap) == Extent(x, o, src, 6, cap);
        while x[o + len] == x[src + len] && len < remaining
          invariant 6 <= len <= remaining
          invariant Extent(x, o, src, 3, cap) == Extent(x, o, src, len, cap)
        {
          len := len + 1;
        }
      }
    }
  }

  lemma FetchSlide(x: seq<byte>, d: nat)
    requires d + 4 <= |x|
    ensures Fetch(x, d + 1) == Fetch(x, d) / 0x100 % 0x1_0000 + 0x1_0000 * (x[d + 3] as int)
  {
    FromLe3(x[d..d + 3]);
    FromLe3(x[d + 1..d + 4]);
  }

  /** The tokens so far are the parse, and the chunks written are theirs. */
  ghost predicate Follows(x: seq<byte>, hv: Buckets, w: Writer, ts: seq<Token>)
    reads w
  {
    Parse(x, hv, ts) && w.done + w.open == Codes(ts)
  }

  lemma FollowsNothing(x: seq<byte>, hv: Buckets)
    ensures Parse(x, hv, []) && [] + [] == Codes([])
  {
  }

  /** A successful run: the whole parse, laid out, with no boundary at which the
      compressor would have given up. */
  ghost predicate CompressedAs(x: seq<byte>, hv: Buckets, ts: seq<Token>, s: seq<byte>) {
    && Parse(x, hv, ts) && Span(ts) == |x|
    && NeverGivesUp(x, ts, Codes(ts))
    && Stream(Codes(ts), s)
  }

  /** Look the current bytes up and decide between a match and a literal. */
  method Decide(x: seq<byte>, src: nat, fetch: nat, lits: nat, st: CompressState, ghost ts: seq<Token>, ghost t: Token)
    returns (usable: bool, h: nat, o: int)
    requires st.Shape() && st.Holds(x, ts)
    requires src == Span(ts) && MainPart(x, src) && fetch == Fetch(x, src) && lits == Lits(ts)
    modifies st.offset, st.cache
    ensures st.Holds(x, ts + [t])
    ensures -1 <= o && h == Hash1(x, st.hv, src) && o == Latest(x, st.hv, ts, h)
    ensures usable <==> Usable(x, ts, o)
  {
    var cached;
    h, o, cached := st.Exchange(x, src, fetch, ts, t);
    usable := false;
    if cached && o >= 0 {
      if src - o > MINOFFSET {
        usable := true;
      } else if src == o + 1 && lits >= 3 && src > 3 {
        usable := CheckSame(x, src - 3, 6);
      }
    }
  }

  lemma FollowsPush(x: seq<byte>, hv: Buckets, cs: seq<Chunk>, ts: seq<Token>)
    requires Parse(x, hv, ts) && cs == Codes(ts) && Span(ts) < |x|
    ensures var t := Choose(x, hv, ts);
            && Parse(x, hv, ts + [t]) && cs + [Code(t)] == Codes(ts + [t])
            && Span(ts + [t]) == Span(ts) + Len(t)
  {
    ParseSnoc(x, hv, ts);
    CodesSnoc(ts, Choose(x, hv, ts));
    SpanSnoc(ts, Choose(x, hv, ts));
  }

  /** Write the match that Choose prescribes. */
  method PutMatch(x: seq<byte>, w: Writer, h: nat, len: nat, ghost hv: Buckets, ghost ts: seq<Token>,
                  ghost s0: nat, ghost f: nat)
    requires Progress(x, w, ts, s0, f) && |w.open| < GROUP && Follows(x, hv, w, ts)
    requires Span(ts) < |x| && 3 <= len <= 255 && Choose(x, hv, ts) == Match(h, len) && Span(ts) + len <= |x|
    modifies w, w.out
    ensures Progress(x, w, ts + [Choose(x, hv, ts)], s0, f) && w.open != []
    ensures Follows(x, hv, w, ts + [Choose(x, hv, ts)])
    ensures w.out[..w.base] == old(w.out[..w.base])
  {
    hide Parse, Codes, Choose, Le, Progress, Span;
    FollowsPush(x, hv, w.done + w.open, ts);
    var hash := 16 * h;
    if len < 18 {
      EmitMatch(x, w, len - 2 + hash, 2, ts, Match(h, len), s0, f);
    } else {
      EmitMatch(x, w, 0x1_0000 * len + hash, 3, ts, Match(h, len), s0, f);
    }
  }

  /** Write the literal that Choose prescribes. */
  method PutLiteral(x: seq<byte>, w: Writer, src: nat, ghost hv: Buckets, ghost ts: seq<Token>, ghost s0: nat,
                    ghost f: nat)
    requires Progress(x, w, ts, s0, f) && |w.open| < GROUP && Follows(x, hv, w, ts)
    requires src == Span(ts) < |x| && Choose(x, hv, ts) == Literal(x[src])
    modifies w, w.out
    ensures Progress(x, w, ts + [Choose(x, hv, ts)], s0, f) && w.open != []
    ensures Follows(x, hv, w, ts + [Choose(x, hv, ts)])
    ensures w.out[..w.base] == old(w.out[..w.base])
  {
    hide Parse, Codes, Choose, Progress, Span;
    FollowsPush(x, hv, w.done + w.open, ts);
    EmitLiteral(x, w, src, ts, s0, f);
  }

  /** One round of the main loop after the control word has been seen to. */
  method Step(x: seq<byte>, src: nat, fetch: nat, lits: nat, w: Writer, st: CompressState,
              ghost ts: seq<Token>, ghost s0: nat, ghost f: nat)
    returns (src': nat, fetch': nat, lits': nat)
    requires Progress(x, w, ts, s0, f) && |w.open| < GROUP && Follows(x, st.hv, w, ts)
    requires st.Shape() && st.Holds(x, ts) && w.out as object != st.offset && w.out as object != st.cache
    requires src == Span(ts) && MainPart(x, src) && fetch == Fetch(x, src) && lits == Lits(ts)
    modifies w, w.out, st.offset, st.cache
    ensures Progress(x, w, ts + [Choose(x, st.hv, ts)], s0, f) && w.open != []
    ensures Follows(x, st.hv, w, ts + [Choose(x, st.hv, ts)]) && st.Holds(x, ts + [Choose(x, st.hv, ts)])
    ensures src' == Span(ts + [Choose(x, st.hv, ts)]) && lits' == Lits(ts + [Choose(x, st.hv, ts)])
    ensures src' + 3 <= |x| && fetch' == Fetch(x, src')
    ensures w.out[..w.base] == old(w.out[..w.base])
  {
    hide Progress, Follows, HashFunc, Latest;
    ghost var t := Choose(x, st.hv, ts);
    SpanSnoc(ts, t);
    assert (ts + [t])[..|ts|] == ts;
    var usable, h, o := Decide(x, src, fetch, lits, st, ts, t);
    if usable {
      var len := MatchLength(x, o, src);
      PutMatch(x, w, h, len, st.hv, ts, s0, f);
      src', lits' := src + len, 0;
      fetch' := FastRead(x, src', 3);
    } else {
      PutLiteral(x, w, src, st.hv, ts, s0, f);
      src', lits' := src + 1, lits + 1;
      FetchSlide(x, src);
      fetch' := fetch / 0x100 % 0x1_0000 + 0x1_0000 * (x[src' + 2] as int);
    }
  }

  /** One literal of the tail. */
  method TailByte(x: seq<byte>, src: nat, w: Writer, st: CompressState, ghost ts: seq<Token>)
    requires w.Valid() && |w.open| < GROUP && Tracks(x, w.done, w.open, ts) && src == Span(ts) < |x|
    requires Follows(x, st.hv, w, ts) && !MainPart(x, src)
    requires st.Shape() && w.out as object != st.offset && w.out as object != st.cache
    requires w.dst < w.out.Length
    modifies w, w.out, st.offset, st.cache
    ensures w.Valid() && Tracks(x, w.done, w.open, ts + [Literal(x[src])]) && Span(ts + [Literal(x[src])]) == src + 1
    ensures Follows(x, st.hv, w, ts + [Literal(x[src])])
    ensures w.dst == old(w.dst) + 1 && |w.open| == |old(w.open)| + 1
    ensures w.out[..w.base] == old(w.out[..w.base])
  {
    hide Layout, Parse, Collecting, Latest, Codes, Tracks, Bodies;
    if src <= |x| - 1 - 3 {
      var fetch := FastRead(x, src, 3);
      var h := HashFunc(fetch, st.hv);
      st.offset[h] := src;
      st.cache[h] := fetch;
    }
    assert Choose(x, st.hv, ts) == Literal(x[src]);
    TracksPush(x, w.done, w.open, ts, Literal(x[src]), Code(Literal(x[src])));
    FollowsPush(x, st.hv, w.done + w.open, ts);
    w.PutLiteral(x[src]);
  }

  /** The last bytes, all literals. Fewer than a group of them are left, so there is
      room for them and for one more control word. */
  method Tail(x: seq<byte>, start: nat, w: Writer, st: CompressState, ghost ts0: seq<Token>)
    returns (ghost ts: seq<Token>)
    requires w.Valid() && Tracks(x, w.done, w.open, ts0) && start == Span(ts0) <= |x|
    requires Follows(x, st.hv, w, ts0)
    requires st.Shape() && w.out as object != st.offset && w.out as object != st.cache
    requires !MainPart(x, start) && |x| - start < GROUP
    requires w.dst + (|x| - start) + 4 <= w.out.Length
    modifies w, w.out, st.offset, st.cache
    ensures w.Valid() && Tracks(x, w.done, w.open, ts) && Span(ts) == |x|
    ensures Follows(x, st.hv, w, ts) && !MainPart(x, Span(ts))
    ensures w.dst <= old(w.dst) + (|x| - start) + 4
    ensures w.open == old(w.open) || w.open != []
    ensures start < |x| ==> w.open != []
    ensures w.out[..w.base] == old(w.out[..w.base])
  {
    hide Layout, Parse, NeverGivesUp, Collecting, Latest, Codes, Tracks, Bodies, Span, TooLong;
    var src := start;
    ts := ts0;
    ghost var flushed := false;
    while src < |x|
      invariant start <= src == Span(ts) <= |x|
      invariant w.Valid() && Tracks(x, w.done, w.open, ts) && Follows(x, st.hv, w, ts)
      invariant w.dst == old(w.dst) + (src - start) + if flushed then 4 else 0
      invariant flushed ==> |w.open| <= src - start
      invariant src > start ==> w.open != []
      invariant src == start ==> w.open == old(w.open)
      invariant w.out[..w.base] == old(w.out[..w.base])
    {
      if w.cword % 2 == 1 {
        CollectingFull(w.open);
        assert !GivesUp(x, ts, w.done + w.open);
        TracksFlush(x, w.done, w.open, ts);
        w.NextWord();
        flushed := true;
      }
      CollectingFull(w.open);
      TailByte(x, src, w, st, ts);
      ts := ts + [Literal(x[src])];
      src := src + 1;
    }
  }

  /** The main loop: up to the last eleven bytes, or to the point of giving up. */
  method MainLoop(x: seq<byte>, w: Writer, st: CompressState)
    returns (poor: bool, src: nat, ghost ts: seq<Token>, ghost s0: nat, ghost f: nat)
    requires Progress(x, w, [], 0, 0) && Follows(x, st.hv, w, [])
    requires st.Shape() && w.out as object != st.offset && w.out as object != st.cache
    requires st.Holds(x, [])
    modifies w, w.out, st.offset, st.cache
    ensures poor <==> GivesUp(x, ts, Codes(ts))
    ensures Progress(x, w, ts, s0, f) && Follows(x, st.hv, w, ts) && src == Span(ts)
    ensures !poor ==> !MainPart(x, src) && (src > 0 ==> w.open != [] && src + 3 <= |x|)
    ensures w.out[..w.base] == old(w.out[..w.base])
  {
    hide Layout, Parse, Collecting, Latest, Codes, Tracks, Choose;
    var fetch: nat, lits: nat := 0, 0;
    src, ts, s0, f := 0, [], 0, 0;
    if MainPart(x, src) {
      fetch := FastRead(x, src, 3);
    }
    while MainPart(x, src)
      invariant Progress(x, w, ts, s0, f) && Follows(x, st.hv, w, ts) && st.Holds(x, ts)
      invariant src == Span(ts) && lits == Lits(ts)
      invariant MainPart(x, src) ==> fetch == Fetch(x, src)
      invariant src > 0 ==> w.open != [] && src + 3 <= |x|
      invariant w.out[..w.base] == old(w.out[..w.base])
      decreases |x| - src
    {
      if w.cword % 2 == 1 {
        CollectingFull(w.open);
        poor := Boundary(x, src, w, ts, s0, f);
        if poor {
          return;
        }
        s0, f := src, f + 1;
        fetch := FastRead(x, src, 3);
      }
      CollectingFull(w.open);
      src, fetch, lits := Step(x, src, fetch, lits, w, st, ts, s0, f);
      ts := ts + [Choose(x, st.hv, ts)];
    }
    poor := false;
  }

  /** Everything after the main loop. */
  method Conclude(x: seq<byte>, src: nat, w: Writer, st: CompressState, ghost ts0: seq<Token>)
    returns (r: nat, ghost ts: seq<Token>)
    requires w.Valid() && Tracks(x, w.done, w.open, ts0) && Follows(x, st.hv, w, ts0) && src == Span(ts0) <= |x|
    requires st.Shape() && w.out as object != st.offset && w.out as object != st.cache
    requires !MainPart(x, src) && 0 < |x| && (src > 0 ==> w.open != [] && src + 3 <= |x|)
    requires w.dst + (|x| - src) + 4 <= w.out.Length && w.base + 9 <= w.out.Length
    modifies w, w.out, st.offset, st.cache
    ensures Parse(x, st.hv, ts) && !GivesUp(x, ts, Codes(ts)) && 9 <= r
    ensures r > 9 ==> r <= old(w.Written()) + (|x| - src) + 4
    ensures w.base + r <= w.out.Length && CompressedAs(x, st.hv, ts, w.out[w.base..w.base + r])
    ensures w.out[..w.base] == old(w.out[..w.base])
  {
    hide Layout, Parse, NeverGivesUp, Collecting, Latest, Codes, Choose, Bodies, Span;
    ts := Tail(x, src, w, st, ts0);
    r := Close(w);
  }

  /** The whole of qlz_compress_core. It returns 0 exactly when a control-word boundary
      past the middle finds the output too long. */
  method CompressCore(x: seq<byte>, out: array<byte>, base: nat, st: CompressState)
    returns (r: nat, ghost ts: seq<Token>)
    requires 0 < |x| && out.Length >= base + |x| + 391
    requires st.Shape() && out as object != st.offset && out as object != st.cache
    requires st.Holds(x, [])
    modifies out, st.offset, st.cache
    ensures out[..base] == old(out[..base])
    ensures Parse(x, st.hv, ts) && (r == 0 <==> GivesUp(x, ts, Codes(ts)))
    ensures r > 0 ==> base + r <= out.Length && CompressedAs(x, st.hv, ts, out[base..base + r])
    ensures r <= |x| + 391 && (|x| < 216 ==> r <= |x| + 20)
  {
    hide Layout, NeverGivesUp, GivesUp, Collecting, Latest, Choose, Bodies, Tracks, TooLong, CompressedAs, Stream,
         Parse, Codes;
    var w := new Writer(out, base);
    TracksNothing(x);
    FollowsNothing(x, st.hv);
    var poor, src; ghost var s0, f;
    poor, src, ts, s0, f := MainLoop(x, w, st);
    if poor {
      return 0, ts;
    }
    BudgetBound(|x|, src, s0, f, |w.open|, w.Written());
    r, ts := Conclude(x, src, w, st, ts);
  }
}

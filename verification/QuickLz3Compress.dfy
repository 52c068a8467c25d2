/** qlz_compress_core at level 3: several pointers per bucket, all of them tried. */
module QuickLz3Compress {
  import opened Bytes
  import opened ControlWords
  import opened QuickLzTokens
  import opened QuickLz3
  import opened QuickLzWriter
  import opened QuickLzProgress

  /** qlz_state_compress: pointers and eight-bit counters per bucket. */
  class CompressState {
    const g: Geometry
    const slot: array2<int>
    const counter: array<nat>

    constructor (g: Geometry)
      ensures this.g == g && Shape() && fresh(slot) && fresh(counter)
    {
      this.g := g;
      slot := new int[g.hashValues, g.pointers];
      counter := new nat[g.hashValues];
    }

    ghost predicate Shape() {
      && slot.Length0 == g.hashValues && slot.Length1 == g.pointers && counter.Length == g.hashValues
      && slot as object != counter
    }

    /** The table once every place before `n` has been entered. Pointers that were never
        set may be anything. */
    ghost predicate Entered(x: seq<byte>, n: nat)
      requires Shape() && n + 2 <= |x|
      reads slot, counter
    {
      && (forall h :: 0 <= h < g.hashValues ==> counter[h] == Count(x, g, h, n) % COUNTER)
      && (forall h, k :: 0 <= h < g.hashValues && 0 <= k < g.pointers && Slot(x, g, h, n, k) >= 0
            ==> slot[h, k] == Slot(x, g, h, n, k))
    }

    /** reset_table_compress: only the counters. */
    method Reset(x: seq<byte>)
      requires Shape()
      modifies counter
      ensures |x| >= 2 ==> Entered(x, 0)
    {
      for i := 0 to g.hashValues
        invariant forall h :: 0 <= h < i ==> counter[h] == 0
      {
        counter[i] := 0;
      }
    }

    /** Enter place `p` over the pointer that the counter selects. */
    method Enter(x: seq<byte>, p: nat)
      requires Shape() && p + 3 <= |x| && Entered(x, p)
      modifies slot, counter
      ensures Entered(x, p + 1)
    {
      hide HashAt;
      var h := HashAt(x, p, g.hashValues);
      var c := counter[h];
      RemainderOfCounter(Count(x, g, h, p), g.pointers);
      slot[h, c % g.pointers] := p;
      counter[h] := (c + 1) % COUNTER;
    }
  }

  lemma RemainderOfCounter(a: nat, m: nat)
    requires m > 0 && COUNTER % m == 0
    ensures a % COUNTER % m == a % m
    ensures (a % COUNTER + 1) % COUNTER == (a + 1) % COUNTER
  {
    CounterStep(a);
    DividesCounter(m);
    Quotient(a % COUNTER, m);
    NestedRemainder(a, a / COUNTER, COUNTER / m, a % COUNTER / m, a % COUNTER % m, m);
  }

  lemma CounterStep(a: nat)
    ensures (a % COUNTER + 1) % COUNTER == (a + 1) % COUNTER
  {
  }

  lemma DividesCounter(m: nat)
    requires m > 0 && COUNTER % m == 0
    ensures COUNTER / m * m == COUNTER
  {
    Quotient(COUNTER, m);
  }

  lemma NestedRemainder(a: nat, t: nat, q: nat, u: nat, v: nat, m: nat)
    requires v < m && q * m == COUNTER && a == t * COUNTER + (u * m + v)
    ensures a % m == v
  {
    Regroup(t, q, u, v, m);
    DivMod(a, m, t * q + u, v);
  }

  lemma Quotient(a: nat, m: nat)
    requires m > 0
    ensures a == a / m * m + a % m && a % m < m
  {
  }

  lemma Regroup(t: nat, q: nat, u: nat, v: nat, m: nat)
    ensures t * (q * m) + (u * m + v) == (t * q + u) * m + v
  {
    assert t * (q * m) == (t * q) * m;
  }

  // ----- Finding the best match

  /** Extend a match whose first three bytes agree. */
  method MatchLength(x: seq<byte>, o: nat, src: nat) returns (m: nat)
    requires MainPart(x, src) && o < src
    ensures m == MatchExtent(x, o, src)
  {
    var remaining := if |x| - 1 - UNCOMPRESSED_END - src + 1 > 255 then 255 else |x| - 1 - UNCOMPRESSED_END - src + 1;
    m := 3;
    while x[o + m] == x[src + m] && m < remaining
      invariant 3 <= m <= remaining == Cap(x, src)
      invariant Extent(x, o, src, 3, remaining) == Extent(x, o, src, m, remaining)
    {
      m := m + 1;
    }
  }

  /** Pointers past the last one looked at do not change the best. */
  lemma {:induction false} BestStops(x: seq<byte>, g: Geometry, d: nat, k: nat, n: nat)
    requires MainPart(x, d) && k <= n
    requires forall j :: k <= j < n ==> !Candidate(x, g, d, j)
    ensures Best(x, g, d, n) == Best(x, g, d, k)
    decreases n - k
  {
    hide Candidate;
    if k < n {
      BestStops(x, g, d, k, n - 1);
    }
  }

  /** Look at one pointer of the bucket. */
  method Probe(x: seq<byte>, st: CompressState, src: nat, h: nat, fetch: nat, k: nat)
    returns (good: bool, o: int)
    requires st.Shape() && MainPart(x, src) && st.Entered(x, src)
    requires h == HashAt(x, src, st.g.hashValues) && fetch == Fetch(x, src)
    requires k < st.g.pointers && k < st.counter[h]
    ensures good <==> Candidate(x, st.g, src, k)
    ensures good ==> o == CandidateAt(x, st.g, src, k) && 0 <= o < src
  {
    hide HashAt;
    SlotFilled(x, st.g, h, src, k);
    o := st.slot[h, k];
    good := FastRead(x, o, 3) == fetch && o < src - MINOFFSET;
  }

  /** Try the first pointer, then the others in order, for a longer match or an equally
      long one from nearer by. */
  method FindMatch(x: seq<byte>, st: CompressState, src: nat, h: nat, fetch: nat)
    returns (offset2: int, matchlen: nat)
    requires st.Shape() && MainPart(x, src) && st.Entered(x, src)
    requires h == HashAt(x, src, st.g.hashValues) && fetch == Fetch(x, src)
    ensures matchlen == Best(x, st.g, src, st.g.pointers).1
    ensures matchlen > 0 ==> offset2 == Best(x, st.g, src, st.g.pointers).0
  {
    hide HashAt, CandidateAt, MatchExtent, Slot, Count;
    var c := st.counter[h];
    offset2, matchlen := st.slot[h, 0], 0;
    if c > 0 {
      var good, o := Probe(x, st, src, h, fetch, 0);
      if good {
        offset2 := o;
        matchlen := MatchLength(x, o, src);
      }
    }
    assert Best(x, st.g, src, 0) == (0, 0);
    var k := 1;
    while k < st.g.pointers && c > k
      invariant 1 <= k <= st.g.pointers
      invariant matchlen == Best(x, st.g, src, k).1
      invariant matchlen > 0 ==> offset2 == Best(x, st.g, src, k).0
    {
      var good, o := Probe(x, st, src, h, fetch, k);
      if good {
        var m := MatchLength(x, o, src);
        if m > matchlen || (m == matchlen && o > offset2) {
          offset2, matchlen := o, m;
        }
      }
      k := k + 1;
    }
    BestStops(x, st.g, src, k, st.g.pointers);
  }

  // ----- Writing the tokens

  /** The tokens so far are the parse, and the chunks written are theirs. */
  ghost predicate Follows(x: seq<byte>, g: Geometry, w: Writer, ts: seq<Token>)
    reads w
  {
    Parse(x, g, ts) && w.done + w.open == Codes(ts)
  }

  lemma FollowsNothing(x: seq<byte>, g: Geometry)
    ensures Parse(x, g, []) && [] + [] == Codes([])
  {
  }

  lemma FollowsPush(x: seq<byte>, g: Geometry, cs: seq<Chunk>, ts: seq<Token>)
    requires Parse(x, g, ts) && cs == Codes(ts) && Span(ts) < |x|
    ensures var t := Choose(x, g, Span(ts));
            && Parse(x, g, ts + [t]) && cs + [Code(t)] == Codes(ts + [t])
            && Span(ts + [t]) == Span(ts) + Len(t)
  {
    hide Choose;
    ParseSnoc(x, g, ts);
    CodesSnoc(ts, Choose(x, g, Span(ts)));
    SpanSnoc(ts, Choose(x, g, Span(ts)));
  }

  /** A successful run: the whole parse, laid out, with no boundary at which the
      compressor would have given up. */
  ghost predicate CompressedAs(x: seq<byte>, g: Geometry, ts: seq<Token>, s: seq<byte>) {
    && Parse(x, g, ts) && Span(ts) == |x|
    && NeverGivesUp(x, ts, Codes(ts))
    && Stream(Codes(ts), s)
  }

  /** Write the match that Choose prescribes, in the shortest form that holds it. */
  method PutMatch(x: seq<byte>, g: Geometry, w: Writer, offset: nat, len: nat, ghost ts: seq<Token>, ghost s0: nat,
                  ghost f: nat)
    requires Progress(x, w, ts, s0, f) && |w.open| < GROUP && Follows(x, g, w, ts)
    requires 3 <= len <= 255 && Span(ts) + len <= |x| && Choose(x, g, Span(ts)) == Match(offset, len)
    modifies w, w.out
    ensures Progress(x, w, ts + [Match(offset, len)], s0, f) && w.open != []
    ensures Follows(x, g, w, ts + [Match(offset, len)])
    ensures w.out[..w.base] == old(w.out[..w.base])
  {
    hide Parse, Codes, Choose, Le, Progress, Span;
    FollowsPush(x, g, w.done + w.open, ts);
    var v, n;
    if len == 3 && offset <= 63 {
      v, n := 4 * offset, 1;
    } else if len == 3 && offset <= 16383 {
      v, n := 4 * offset + 1, 2;
    } else if len <= 18 && offset <= 1023 {
      v, n := 4 * (len - 3) + 64 * offset + 2, 2;
    } else if len <= 33 {
      v, n := 4 * (len - 2) + 128 * offset + 3, 3;
    } else {
      v, n := 128 * (len - 3) + 32768 * offset + 3, 4;
    }
    EmitMatch(x, w, v, n, ts, Match(offset, len), s0, f);
  }

  method PutLiteral(x: seq<byte>, g: Geometry, w: Writer, src: nat, ghost ts: seq<Token>, ghost s0: nat, ghost f: nat)
    requires Progress(x, w, ts, s0, f) && |w.open| < GROUP && Follows(x, g, w, ts)
    requires src == Span(ts) < |x| && Choose(x, g, src) == Literal(x[src])
    modifies w, w.out
    ensures Progress(x, w, ts + [Literal(x[src])], s0, f) && w.open != []
    ensures Follows(x, g, w, ts + [Literal(x[src])])
    ensures w.out[..w.base] == old(w.out[..w.base])
  {
    hide Parse, Codes, Choose, Progress, Span;
    FollowsPush(x, g, w.done + w.open, ts);
    EmitLiteral(x, w, src, ts, s0, f);
  }

  /** Find the match for the current place, then enter the place. */
  method Search(x: seq<byte>, st: CompressState, src: nat) returns (o: int, matchlen: nat)
    requires st.Shape() && MainPart(x, src) && st.Entered(x, src)
    modifies st.slot, st.counter
    ensures st.Entered(x, src + 1)
    ensures matchlen == Best(x, st.g, src, st.g.pointers).1
    ensures matchlen > 0 ==> o == Best(x, st.g, src, st.g.pointers).0
  {
    hide HashFunc, Slot, Count, Best;
    var fetch := FastRead(x, src, 3);
    var hash := HashFunc(fetch, st.g.hashValues);
    o, matchlen := FindMatch(x, st, src, hash, fetch);
    st.Enter(x, src);
  }

  /** Enter every further place inside a match. */
  method EnterInside(x: seq<byte>, st: CompressState, src: nat, matchlen: nat)
    requires st.Shape() && 1 <= matchlen && src + matchlen + 2 <= |x| && st.Entered(x, src + 1)
    modifies st.slot, st.counter
    ensures st.Entered(x, src + matchlen)
  {
    hide HashAt, Slot, Count;
    for u := 1 to matchlen
      invariant st.Entered(x, src + u)
    {
      st.Enter(x, src + u);
    }
  }

  /** One round of the main loop after the control word has been seen to. */
  method Step(x: seq<byte>, src: nat, w: Writer, st: CompressState, ghost ts: seq<Token>, ghost s0: nat, ghost f: nat)
    returns (src': nat)
    requires Progress(x, w, ts, s0, f) && |w.open| < GROUP && Follows(x, st.g, w, ts)
    requires st.Shape() && w.out as object != st.slot && w.out as object != st.counter
    requires src == Span(ts) && MainPart(x, src) && st.Entered(x, src)
    modifies w, w.out, st.slot, st.counter
    ensures Progress(x, w, ts + [Choose(x, st.g, src)], s0, f) && w.open != []
    ensures Follows(x, st.g, w, ts + [Choose(x, st.g, src)])
    ensures src' == Span(ts + [Choose(x, st.g, src)]) && src < src' && src' + 3 <= |x| && st.Entered(x, src')
    ensures w.out[..w.base] == old(w.out[..w.base])
  {
    hide Progress, Follows, HashAt, Slot, Count, Best;
    SpanSnoc(ts, Choose(x, st.g, src));
    var o, matchlen := Search(x, st, src);
    if matchlen > 2 && src - o < MAX_OFFSET {
      EnterInside(x, st, src, matchlen);
      PutMatch(x, st.g, w, src - o, matchlen, ts, s0, f);
      src' := src + matchlen;
    } else {
      PutLiteral(x, st.g, w, src, ts, s0, f);
      src' := src + 1;
    }
  }

  /** One literal of the tail. */
  method TailByte(x: seq<byte>, g: Geometry, src: nat, w: Writer, ghost ts: seq<Token>)
    requires w.Valid() && |w.open| < GROUP && Tracks(x, w.done, w.open, ts) && src == Span(ts) < |x|
    requires Follows(x, g, w, ts) && !MainPart(x, src)
    requires w.dst < w.out.Length
    modifies w, w.out
    ensures w.Valid() && Tracks(x, w.done, w.open, ts + [Literal(x[src])]) && Span(ts + [Literal(x[src])]) == src + 1
    ensures Follows(x, g, w, ts + [Literal(x[src])])
    ensures w.dst == old(w.dst) + 1 && |w.open| == |old(w.open)| + 1
    ensures w.out[..w.base] == old(w.out[..w.base])
  {
    hide Layout, Parse, Collecting, Codes, Tracks, Bodies, Best;
    assert Choose(x, g, src) == Literal(x[src]);
    TracksPush(x, w.done, w.open, ts, Literal(x[src]), Code(Literal(x[src])));
    FollowsPush(x, g, w.done + w.open, ts);
    w.PutLiteral(x[src]);
  }

  /** The last bytes, all literals. */
  method Tail(x: seq<byte>, g: Geometry, start: nat, w: Writer, ghost ts0: seq<Token>)
    returns (ghost ts: seq<Token>)
    requires w.Valid() && Tracks(x, w.done, w.open, ts0) && start == Span(ts0) <= |x|
    requires Follows(x, g, w, ts0)
    requires !MainPart(x, start) && |x| - start < GROUP
    requires w.dst + (|x| - start) + 4 <= w.out.Length
    modifies w, w.out
    ensures w.Valid() && Tracks(x, w.done, w.open, ts) && Span(ts) == |x|
    ensures Follows(x, g, w, ts) && !MainPart(x, Span(ts))
    ensures w.dst <= old(w.dst) + (|x| - start) + 4
    ensures w.open == old(w.open) || w.open != []
    ensures start < |x| ==> w.open != []
    ensures w.out[..w.base] == old(w.out[..w.base])
  {
    hide Layout, Parse, NeverGivesUp, Collecting, Codes, Tracks, Bodies, Span, TooLong;
    var src := start;
    ts := ts0;
    ghost var flushed := false;
    while src < |x|
      invariant start <= src == Span(ts) <= |x|
      invariant w.Valid() && Tracks(x, w.done, w.open, ts) && Follows(x, g, w, ts)
      invariant w.dst == old(w.dst) + (src - start) + if flushed then 4 else 0
      invariant flushed ==> |w.open| <= src - start
      invariant src > start ==> w.open != []
      invariant src == start ==> w.open == old(w.open)
      invariant w.out[..w.base] == old(w.out[..w.base])
    {
      if w.cword % 2 == 1 {
        CollectingFull(w.open);
        assert !GivesUp(x, ts, w.done + w.open);
        TracksFlush(x, w.done, w.open, ts);
        w.NextWord();
        flushed := true;
      }
      CollectingFull(w.open);
      TailByte(x, g, src, w, ts);
      ts := ts + [Literal(x[src])];
      src := src + 1;
    }
  }

  /** The main loop: up to the last eleven bytes, or to the point of giving up. */
  method MainLoop(x: seq<byte>, w: Writer, st: CompressState)
    returns (poor: bool, src: nat, ghost ts: seq<Token>, ghost s0: nat, ghost f: nat)
    requires Progress(x, w, [], 0, 0) && Follows(x, st.g, w, [])
    requires st.Shape() && w.out as object != st.slot && w.out as object != st.counter
    requires |x| >= 2 ==> st.Entered(x, 0)
    modifies w, w.out, st.slot, st.counter
    ensures poor <==> GivesUp(x, ts, Codes(ts))
    ensures Progress(x, w, ts, s0, f) && Follows(x, st.g, w, ts) && src == Span(ts)
    ensures !poor ==> !MainPart(x, src) && (src > 0 ==> w.open != [] && src + 3 <= |x|)
    ensures w.out[..w.base] == old(w.out[..w.base])
  {
    hide Layout, Parse, Collecting, Count, Slot, Codes, Tracks, Choose;
    src, ts, s0, f := 0, [], 0, 0;
    while MainPart(x, src)
      invariant Progress(x, w, ts, s0, f) && Follows(x, st.g, w, ts)
      invariant src + 2 <= |x| ==> st.Entered(x, src)
      invariant src == Span(ts)
      invariant src > 0 ==> w.open != [] && src + 3 <= |x|
      invariant w.out[..w.base] == old(w.out[..w.base])
      decreases |x| - src
    {
      if w.cword % 2 == 1 {
        CollectingFull(w.open);
        poor := Boundary(x, src, w, ts, s0, f);
        if poor {
          return;
        }
        s0, f := src, f + 1;
      }
      CollectingFull(w.open);
      ghost var t := Choose(x, st.g, src);
      src := Step(x, src, w, st, ts, s0, f);
      ts := ts + [t];
    }
    poor := false;
  }

  /** Everything after the main loop. */
  method Conclude(x: seq<byte>, g: Geometry, src: nat, w: Writer, ghost ts0: seq<Token>)
    returns (r: nat, ghost ts: seq<Token>)
    requires w.Valid() && Tracks(x, w.done, w.open, ts0) && Follows(x, g, w, ts0) && src == Span(ts0) <= |x|
    requires !MainPart(x, src) && 0 < |x| && (src > 0 ==> w.open != [] && src + 3 <= |x|)
    requires w.dst + (|x| - src) + 4 <= w.out.Length && w.base + 9 <= w.out.Length
    modifies w, w.out
    ensures Parse(x, g, ts) && !GivesUp(x, ts, Codes(ts)) && 9 <= r
    ensures r > 9 ==> r <= old(w.Written()) + (|x| - src) + 4
    ensures w.base + r <= w.out.Length && CompressedAs(x, g, ts, w.out[w.base..w.base + r])
    ensures w.out[..w.base] == old(w.out[..w.base])
  {
    hide Layout, Parse, NeverGivesUp, Collecting, Codes, Choose, Bodies, Span;
    ts := Tail(x, g, src, w, ts0);
    r := Close(w);
  }

  /** The whole of qlz_compress_core. It returns 0 exactly when a control-word boundary
      past the middle finds the output too long. */
  method CompressCore(x: seq<byte>, out: array<byte>, base: nat, st: CompressState)
    returns (r: nat, ghost ts: seq<Token>)
    requires 0 < |x| && out.Length >= base + |x| + 391
    requires st.Shape() && out as object != st.slot && out as object != st.counter
    requires |x| >= 2 ==> st.Entered(x, 0)
    modifies out, st.slot, st.counter
    ensures out[..base] == old(out[..base])
    ensures Parse(x, st.g, ts) && (r == 0 <==> GivesUp(x, ts, Codes(ts)))
    ensures r > 0 ==> base + r <= out.Length && CompressedAs(x, st.g, ts, out[base..base + r])
    ensures r <= |x| + 391 && (|x| < 216 ==> r <= |x| + 20)
  {
    hide Layout, NeverGivesUp, GivesUp, Collecting, Count, Slot, Choose, Bodies, Tracks, TooLong, CompressedAs,
         Stream, Parse, Codes;
    var w := new Writer(out, base);
    TracksNothing(x);
    FollowsNothing(x, st.g);
    var poor, src; ghost var s0, f;
    poor, src, ts, s0, f := MainLoop(x, w, st);
    if poor {
      return 0, ts;
    }
    BudgetBound(|x|, src, s0, f, |w.open|, w.Written());
    r, ts := Conclude(x, st.g, src, w, ts);
  }
}

/** What the compressors of both levels keep track of: the chunks written for the tokens
    so far, the give-up test at every control-word boundary, and the room used. */
module QuickLzProgress {
  import opened Bytes
  import opened ControlWords
  import opened QuickLzTokens
  import opened QuickLzWriter

  // ----- Giving up

  /** After the tokens `ts`, written as `cs`, the compressor stops and the text is stored
      as it is: at a control-word boundary, past the middle of the text, with output not
      at least one part in 32 smaller. */
  ghost predicate GivesUp(x: seq<byte>, ts: seq<Token>, cs: seq<Chunk>) {
    && ts != [] && |ts| % GROUP == 0
    && MainPart(x, Span(ts))
    && TooLong(x, Span(ts), |Layout(cs)|)
  }

  ghost predicate NeverGivesUp(x: seq<byte>, ts: seq<Token>, cs: seq<Chunk>)
    requires |ts| == |cs|
  {
    forall i :: 0 <= i < |ts| ==> !GivesUp(x, ts[..i], cs[..i])
  }

  lemma NeverGivesUpSnoc(x: seq<byte>, ts: seq<Token>, cs: seq<Chunk>, t: Token, c: Chunk)
    requires |ts| == |cs| && NeverGivesUp(x, ts, cs) && !GivesUp(x, ts, cs)
    ensures NeverGivesUp(x, ts + [t], cs + [c])
  {
    hide GivesUp;
    var us, ds := ts + [t], cs + [c];
    forall i | 0 <= i < |us| ensures !GivesUp(x, us[..i], ds[..i]) {
      if i < |ts| {
        assert us[..i] == ts[..i] && ds[..i] == cs[..i];
      } else {
        assert us[..i] == ts && ds[..i] == cs;
      }
    }
  }

  // ----- The output follows the tokens

  ghost predicate Tracks(x: seq<byte>, done: seq<Chunk>, open: seq<Chunk>, ts: seq<Token>) {
    && |done + open| == |ts|
    && NeverGivesUp(x, ts, done + open)
    && (|open| < GROUP ==> !GivesUp(x, ts, done + open))
  }

  lemma TracksNothing(x: seq<byte>)
    ensures Tracks(x, [], [], [])
  {
  }

  lemma {:induction false} TokensAtMostSpan(ts: seq<Token>)
    ensures |ts| <= Span(ts)
  {
    if ts != [] {
      TokensAtMostSpan(ts[..|ts| - 1]);
    }
  }

  lemma LayoutLength(done: seq<Chunk>, open: seq<Chunk>)
    requires |done| % GROUP == 0 && 0 < |open| <= GROUP
    ensures |Layout(done + open)| == |Layout(done)| + 4 + |Bodies(open)|
  {
    LayoutConcat(done, open);
  }

  lemma TracksPush(x: seq<byte>, done: seq<Chunk>, open: seq<Chunk>, ts: seq<Token>, t: Token, c: Chunk)
    requires Tracks(x, done, open, ts) && |done| % GROUP == 0 && |open| < GROUP
    ensures Tracks(x, done, open + [c], ts + [t])
    ensures Span(ts + [t]) == Span(ts) + Len(t)
    ensures done + (open + [c]) == (done + open) + [c]
  {
    hide Layout, NeverGivesUp, MainPart, TooLong;
    NeverGivesUpSnoc(x, ts, done + open, t, c);
    SpanSnoc(ts, t);
    assert done + (open + [c]) == (done + open) + [c];
    InsideGroup(|done|, |open| + 1);
  }

  lemma TracksFlush(x: seq<byte>, done: seq<Chunk>, open: seq<Chunk>, ts: seq<Token>)
    requires Tracks(x, done, open, ts) && |open| == GROUP && !GivesUp(x, ts, done + open)
    ensures Tracks(x, done + open, [], ts)
    ensures (done + open) + [] == done + open
  {
    assert (done + open) + [] == done + open;
  }

  /** The give-up test sees the length of the stream so far. */
  lemma GivesUpIff(x: seq<byte>, done: seq<Chunk>, open: seq<Chunk>, ts: seq<Token>, w: nat)
    requires |done + open| == |ts| && |done| % GROUP == 0 && |open| == GROUP
    requires w == |Layout(done)| + 4 + |Bodies(open)|
    ensures GivesUp(x, ts, done + open) <==> MainPart(x, Span(ts)) && TooLong(x, Span(ts), w)
  {
    hide Layout;
    LayoutLength(done, open);
    InsideGroup(|done|, |open|);
    assert |ts| == |done| + GROUP;
  }

  /** What the compressor has written after the tokens `ts`: `f` flushes so far, the
      last of them at text position `s0`. */
  ghost predicate Progress(x: seq<byte>, w: Writer, ts: seq<Token>, s0: nat, f: nat)
    reads w, w.out
  {
    && w.Valid()
    && |w.done| == GROUP * f
    && Tracks(x, w.done, w.open, ts)
    && Budget(|x|, Span(ts), s0, f, |w.open|, w.Written())
    && w.out.Length >= w.base + |x| + 391
  }

  /** At a full control word: give up, or store it and go on. */
  method Boundary(x: seq<byte>, src: nat, w: Writer, ghost ts: seq<Token>, ghost s0: nat, ghost f: nat)
    returns (poor: bool)
    requires Progress(x, w, ts, s0, f) && src == Span(ts) && MainPart(x, src)
    requires |w.open| == GROUP
    modifies w, w.out
    ensures poor <==> GivesUp(x, ts, old(w.done + w.open))
    ensures poor ==> Progress(x, w, ts, s0, f)
    ensures !poor ==> Progress(x, w, ts, src, f + 1) && w.open == []
    ensures w.done + w.open == old(w.done + w.open)
    ensures w.out[..w.base] == old(w.out[..w.base])
  {
    hide Layout, NeverGivesUp, Collecting;
    GivesUpIff(x, w.done, w.open, ts, w.Written());
    poor := TooLong(x, src, w.Written());
    if !poor {
      BudgetBound(|x|, src, s0, f, |w.open|, w.Written());
      TokensAtMostSpan(ts);
      BudgetFlush(|x|, src, s0, f, w.Written());
      TracksFlush(x, w.done, w.open, ts);
      w.NextWord();
    }
  }

  /** Emit the bytes of a match token. */
  method EmitMatch(x: seq<byte>, w: Writer, v: nat, n: nat, ghost ts: seq<Token>, ghost t: Token, ghost s0: nat,
                   ghost f: nat)
    requires Progress(x, w, ts, s0, f) && |w.open| < GROUP
    requires t.Match? && Span(ts) + t.len <= |x| && 1 <= n <= 4 && n <= t.len
    modifies w, w.out
    ensures Progress(x, w, ts + [t], s0, f) && w.open != []
    ensures w.done + w.open == old(w.done + w.open) + [Chunk(true, Le(v, n))]
    ensures w.out[..w.base] == old(w.out[..w.base])
  {
    hide Layout, NeverGivesUp, GivesUp, Collecting, Le, Bodies, Span, Tracks;
    TracksPush(x, w.done, w.open, ts, t, Chunk(true, Le(v, n)));
    BudgetBound(|x|, Span(ts), s0, f, |w.open|, w.Written());
    BudgetPush(|x|, Span(ts), s0, f, |w.open|, w.Written(), t.len, n);
    w.PutMatch(v, n);
  }

  method EmitLiteral(x: seq<byte>, w: Writer, src: nat, ghost ts: seq<Token>, ghost s0: nat, ghost f: nat)
    requires Progress(x, w, ts, s0, f) && |w.open| < GROUP && src == Span(ts) < |x|
    modifies w, w.out
    ensures Progress(x, w, ts + [Literal(x[src])], s0, f) && w.open != []
    ensures w.done + w.open == old(w.done + w.open) + [Chunk(false, [x[src]])]
    ensures w.out[..w.base] == old(w.out[..w.base])
  {
    hide Layout, NeverGivesUp, GivesUp, Collecting, Bodies, Span, Tracks;
    TracksPush(x, w.done, w.open, ts, Literal(x[src]), Chunk(false, [x[src]]));
    BudgetBound(|x|, src, s0, f, |w.open|, w.Written());
    BudgetPush(|x|, src, s0, f, |w.open|, w.Written(), 1, 1);
    w.PutLiteral(x[src]);
  }

  /** The stream that stands for `cs`: its layout, and at least nine bytes. */
  ghost predicate Stream(cs: seq<Chunk>, s: seq<byte>) {
    && Layout(cs) <= s
    && |s| == if |Layout(cs)| < 9 then 9 else |Layout(cs)|
  }

  /** The last control word, and the length of the stream. */
  method Close(w: Writer) returns (r: nat)
    requires w.Valid() && w.open != [] && w.base + 9 <= w.out.Length
    modifies w, w.out
    ensures r == if old(w.Written()) < 9 then 9 else old(w.Written())
    ensures w.base + r <= w.out.Length && Stream(old(w.done + w.open), w.out[w.base..w.base + r])
    ensures w.out[..w.base] == old(w.out[..w.base])
  {
    hide Layout, Collecting, Bodies;
    r := w.dst - w.base;
    w.Finish();
    assert |w.out[w.base..w.dst]| == r;
    if r < 9 {
      r := 9;
    }
    assert w.out[w.base..w.dst] <= w.out[w.base..w.base + r];
  }
}

/** What both QuickLZ levels share: tokens, their positions in the text, the hash
    and the length of a match. Positions are offsets from the start of the text. */
module QuickLzTokens {
  import opened Bytes
  import opened ControlWords

  const MINOFFSET := 2
  const UNCONDITIONAL_MATCHLEN := 6
  const UNCOMPRESSED_END := 4
  const CWORD_LEN := 4

  type MatchLen = n: nat | 3 <= n <= 255 witness 3

  /** `ref` is the distance back at level 3 and a hash bucket at level 1. */
  datatype Token = Literal(value: byte) | Match(ref: nat, len: MatchLen)

  function Len(t: Token): (n: nat)
    ensures n >= 1
  {
    if t.Literal? then 1 else t.len
  }

  /** Length of the text that the tokens stand for. */
  function Span(ts: seq<Token>): nat {
    if ts == [] then 0 else Span(ts[..|ts| - 1]) + Len(ts[|ts| - 1])
  }

  lemma SpanSnoc(ts: seq<Token>, t: Token)
    ensures Span(ts + [t]) == Span(ts) + Len(t)
  {
    assert (ts + [t])[..|ts|] == ts;
  }

  lemma SpanStep(ts: seq<Token>, i: nat)
    requires i < |ts|
    ensures Span(ts[..i + 1]) == Span(ts[..i]) + Len(ts[i])
  {
    assert ts[..i + 1][..i] == ts[..i];
  }

  /** src <= last_matchstart: only here does the compressor look for matches. */
  predicate MainPart(x: seq<byte>, d: nat) {
    d + 1 + UNCONDITIONAL_MATCHLEN + UNCOMPRESSED_END <= |x|
  }

  function Fetch(x: seq<byte>, d: nat): nat
    requires d + 3 <= |x|
  {
    FastRead(x, d, 3)
  }

  lemma ThreeDigits(a0: byte, a1: byte, a2: byte, b0: byte, b1: byte, b2: byte)
    ensures a0 + 0x100 * (a1 as int) + 0x1_0000 * (a2 as int) == b0 + 0x100 * (b1 as int) + 0x1_0000 * (b2 as int)
            <==> a0 == b0 && a1 == b1 && a2 == b2
  {
  }

  /** Equal fetches are equal triples of bytes. */
  lemma SameThree(x: seq<byte>, o: nat, d: nat)
    requires o + 3 <= |x| && d + 3 <= |x|
    ensures Fetch(x, o) == Fetch(x, d) <==> x[o] == x[d] && x[o + 1] == x[d + 1] && x[o + 2] == x[d + 2]
  {
    hide FromLe;
    var a, b := x[o..o + 3], x[d..d + 3];
    FromLe3(a);
    FromLe3(b);
    ThreeDigits(a[0], a[1], a[2], b[0], b[1], b[2]);
    assert a[0] == x[o] && b[0] == x[d] && a[1] == x[o + 1] && b[1] == x[d + 1] && a[2] == x[o + 2] && b[2] == x[d + 2];
  }

  lemma SameFetch(x: seq<byte>, o: nat, d: nat)
    requires o <= d && d + 3 <= |x|
    ensures Fetch(x, o) == Fetch(x, d) <==> Copies(x, o, d, 3)
  {
    hide Fetch;
    SameThree(x, o, d);
    assert Copies(x, o, d, 3) <==> x[d] == x[o] && x[d + 1] == x[o + 1] && x[d + 2] == x[o + 2];
  }

  /** Bitwise exclusive or. */
  function Xor(a: nat, b: nat): nat {
    if a == 0 && b == 0 then 0
    else (if a % 2 == b % 2 then 0 else 1) + 2 * Xor(a / 2, b / 2)
  }

  /** hash_func for a table of `n` buckets; for a power of two, masking with n - 1
      is the remainder. */
  function HashFunc(f: nat, n: nat): (h: nat)
    requires n > 0
    ensures h < n
  {
    Xor(f / 0x1000, f) % n
  }

  function HashAt(x: seq<byte>, d: nat, n: nat): (h: nat)
    requires d + 3 <= |x| && n > 0
    ensures h < n
  {
    HashFunc(Fetch(x, d), n)
  }

  /** Each of the `len` bytes from `d` on equals the one `d - p` places before it;
      the two ranges may overlap. */
  ghost predicate Copies(x: seq<byte>, p: nat, d: nat, len: nat)
    requires p <= d && d + len <= |x|
  {
    forall k :: d <= k < d + len ==> x[k] == x[k - (d - p)]
  }

  /** No match is longer than 255 or reaches the last four bytes. */
  function Cap(x: seq<byte>, d: nat): (c: nat)
    requires MainPart(x, d)
    ensures UNCONDITIONAL_MATCHLEN < c <= 255 && d + c + UNCOMPRESSED_END <= |x|
  {
    if |x| - UNCOMPRESSED_END - d > 255 then 255 else |x| - UNCOMPRESSED_END - d
  }

  /** How far the bytes at `o` and `d` agree, from offset `k` on and up to `cap`. */
  function Extent(x: seq<byte>, o: nat, d: nat, k: nat, cap: nat): (n: nat)
    requires o <= d && k <= cap && d + cap <= |x|
    ensures k <= n <= cap
    decreases cap - k
  {
    if k < cap && x[o + k] == x[d + k] then Extent(x, o, d, k + 1, cap) else k
  }

  /** The extent is the longest agreement below the cap. */
  lemma {:induction false} ExtentLongest(x: seq<byte>, o: nat, d: nat, k: nat, cap: nat)
    requires o <= d && k <= cap && d + cap <= |x|
    requires Copies(x, o, d, k)
    ensures var n := Extent(x, o, d, k, cap);
            Copies(x, o, d, n) && (n < cap ==> x[o + n] != x[d + n])
    decreases cap - k
  {
    if k < cap && x[o + k] == x[d + k] {
      ExtentLongest(x, o, d, k + 1, cap);
    }
  }

  // ----- What a decoder may rely on

  /** Token `t` starts at `d`: a literal repeats the text, a match starts in the
      main part and leaves the last four bytes alone. */
  ghost predicate Fits(x: seq<byte>, d: nat, t: Token) {
    match t
    case Literal(b) => d < |x| && x[d] == b
    case Match(_, len) => MainPart(x, d) && d + len + UNCOMPRESSED_END <= |x|
  }

  ghost predicate Tiles(x: seq<byte>, ts: seq<Token>) {
    && Span(ts) == |x|
    && forall i :: 0 <= i < |ts| ==> Fits(x, Span(ts[..i]), ts[i])
  }

  /** The last four bytes of the text are four tokens of their own. */
  lemma {:induction false} TokensLeft(x: seq<byte>, ts: seq<Token>, i: nat)
    requires Tiles(x, ts) && i <= |ts|
    ensures Span(ts[..i]) <= |x|
    ensures |ts| - i >= if |x| - Span(ts[..i]) < UNCOMPRESSED_END then |x| - Span(ts[..i]) else UNCOMPRESSED_END
    ensures i == |ts| <==> Span(ts[..i]) == |x|
    decreases |ts| - i
  {
    if i == |ts| {
      assert ts[..i] == ts;
    } else {
      SpanStep(ts, i);
      TokensLeft(x, ts, i + 1);
      assert Fits(x, Span(ts[..i]), ts[i]);
    }
  }

  /** Bytes of the last group are not all literals unless that many are left. */
  lemma {:induction false} BodiesAtLeast(cs: seq<Chunk>)
    requires forall i :: 0 <= i < |cs| ==> |cs[i].body| >= 1
    ensures |Bodies(cs)| >= |cs|
  {
    if cs != [] {
      BodiesAtLeast(cs[1..]);
    }
  }

  lemma {:induction false} LayoutAtLeast(cs: seq<Chunk>)
    requires forall i :: 0 <= i < |cs| ==> |cs[i].body| >= 1
    ensures |Layout(cs)| >= |cs|
  {
    if |cs| > GROUP {
      BodiesAtLeast(cs[..GROUP]);
      LayoutAtLeast(cs[GROUP..]);
    } else {
      BodiesAtLeast(cs);
    }
  }

  /** A reader with `k` chunks ahead of it has `k` bytes ahead of it. */
  lemma BytesLeft(s: seq<byte>, src: nat, w: nat, cs: seq<Chunk>, i: nat, c: nat, pad: nat)
    requires Reading(s, src, w, cs, i, c, pad)
    requires forall i :: 0 <= i < |cs| ==> |cs[i].body| >= 1
    ensures |s| - src >= |cs| - i
  {
    BodiesAtLeast(cs[i..i + c]);
    LayoutAtLeast(cs[i + c..]);
  }

  // ----- The compressor's give-up test

  /** At a control-word boundary past the middle of the text: `written` bytes of
      output for `d` bytes of text is not at least one part in 32 smaller. */
  predicate TooLong(x: seq<byte>, d: nat, written: nat) {
    d > |x| / 2 && written > d - d / 32
  }
}

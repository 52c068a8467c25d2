/** qlz_compress and qlz_decompress: the header, the stored fallback, and the round trip
    at levels 1 and 3. */
module QuickLz {
  import opened Bytes
  import opened ControlWords
  import opened QuickLzTokens
  import opened QuickLzReader
  import opened QuickLzWriter
  import opened QuickLzProgress
  import L1 = QuickLz1
  import C1 = QuickLz1Compress
  import D1 = QuickLz1Decompress
  import L3 = QuickLz3
  import C3 = QuickLz3Compress
  import D3 = QuickLz3Decompress

  /** Sizes the compressor accepts: not empty, and 400 bytes short of 32 bits. */
  predicate Accepted(size: nat) {
    0 < size <= 0xffff_ffff - 400
  }

  function HeaderLength(size: nat): nat {
    if size < 216 then 3 else 9
  }

  /** The header: flags 01SSLLHC, then the compressed and the plain size. */
  function Header(level: nat, compressed: bool, r: nat, size: nat): (h: seq<byte>)
    requires level <= 3
    ensures |h| == HeaderLength(size)
  {
    var c := if compressed then 1 else 0;
    if size < 216 then [64 + 4 * level + c, r % 0x100, size % 0x100]
    else [64 + 4 * level + 2 + c] + Le(r, 4) + Le(size, 4)
  }

  /** The flags of a header are 0100LLHC in binary. */
  lemma HeaderFlags(level: nat, compressed: bool, r: nat, size: nat)
    requires level <= 3
    ensures var f := Header(level, compressed, r, size)[0];
            && f % 2 == (if compressed then 1 else 0) && f / 2 % 2 == (if size < 216 then 0 else 1)
            && f / 4 % 4 == level && f / 16 == 4
  {
    hide Le;
  }

  /** The size readers return what the header was written with, at both widths. */
  lemma HeaderReads(s: seq<byte>, level: nat, compressed: bool, r: nat, size: nat)
    requires level <= 3 && r < 0x1_0000_0000 && size < 0x1_0000_0000 && (size < 216 ==> r < 0x100)
    requires |s| >= HeaderLength(size) && s[..HeaderLength(size)] == Header(level, compressed, r, size)
    ensures HeaderSize(s) == HeaderLength(size) == if size < 216 then 3 else 9
    ensures SizeCompressed(s) == r && SizeDecompressed(s) == size
    ensures s[0] % 2 == 1 <==> compressed
  {
    hide Le, FromLe;
    var h := s[..HeaderLength(size)];
    HeaderFlags(level, compressed, r, size);
    assert s[0] == h[0];
    if size < 216 {
      OneByte(r);
      OneByte(size);
      assert s[1] == h[1] == r && s[2] == h[2] == size;
      assert s[1..2] == [s[1]] && s[2..3] == [s[2]];
    } else {
      Pow2Constants();
      FromLeOfLe(r, 4);
      FromLeOfLe(size, 4);
      assert s[1..5] == h[1..5] == Le(r, 4);
      assert s[5..9] == h[5..9] == Le(size, 4);
    }
  }

  lemma OneByte(b: byte)
    ensures FromLe([b]) == b
  {
  }

  /** A complete level-1 container for `x`: stored when the parse runs into the give-up
      test, otherwise the whole parse laid out. */
  ghost predicate Packed1(s: seq<byte>, x: seq<byte>, hv: L1.Buckets, ts: seq<Token>) {
    && Accepted(|x|) && |s| <= |x| + 400 && (|x| < 216 ==> |s| < 0x100)
    && var stored := GivesUp(x, ts, L1.Codes(ts));
       var n := HeaderLength(|x|);
       && n <= |s| && s[..n] == Header(1, !stored, |s|, |x|)
       && L1.Parse(x, hv, ts)
       && (if stored then s[n..] == x else C1.CompressedAs(x, hv, ts, s[n..]))
  }

  ghost predicate Packed3(s: seq<byte>, x: seq<byte>, g: L3.Geometry, ts: seq<Token>) {
    && Accepted(|x|) && |s| <= |x| + 400 && (|x| < 216 ==> |s| < 0x100)
    && var stored := GivesUp(x, ts, L3.Codes(ts));
       var n := HeaderLength(|x|);
       && n <= |s| && s[..n] == Header(3, !stored, |s|, |x|)
       && L3.Parse(x, g, ts)
       && (if stored then s[n..] == x else C3.CompressedAs(x, g, ts, s[n..]))
  }

  /** A multiple of 31 tokens written, more than half of the text but not its last eleven
      bytes behind, and the output longer than 31 parts in 32 of the text read. */
  ghost predicate PoorRatio(size: nat, tokens: nat, span: nat, written: nat) {
    tokens > 0 && tokens % 31 == 0 && span > size / 2 && span + 11 <= size && written > span - span / 32
  }

  function AtLeastNine(n: nat): nat {
    if n < 9 then 9 else n
  }

  /** The header says "stored" exactly when the parse meets a poor ratio; the tokens end
      there, and otherwise at the end of the text. The container is a header and the text, or
      a header and the stream, which has nine bytes or more. */
  lemma StoredIff1(s: seq<byte>, x: seq<byte>, hv: L1.Buckets, ts: seq<Token>)
    requires Packed1(s, x, hv, ts)
    ensures s[0] % 2 == 0 <==> PoorRatio(|x|, |ts|, Span(ts), |Layout(L1.Codes(ts))|)
    ensures s[0] % 2 == 0 || Span(ts) == |x|
    ensures |s| == (if |x| < 216 then 3 else 9) + if s[0] % 2 == 0 then |x| else AtLeastNine(|Layout(L1.Codes(ts))|)
    ensures forall i :: 0 <= i < |ts| && s[0] % 2 == 1 ==>
              !PoorRatio(|x|, i, Span(ts[..i]), |Layout(L1.Codes(ts[..i]))|)
  {
    hide Layout, Header, L1.Parse, Span;
    HeaderReads(s, 1, !GivesUp(x, ts, L1.Codes(ts)), |s|, |x|);
    if s[0] % 2 == 1 {
      forall i | 0 <= i < |ts| ensures !PoorRatio(|x|, i, Span(ts[..i]), |Layout(L1.Codes(ts[..i]))|) {
        assert L1.Codes(ts)[..i] == L1.Codes(ts[..i]);
        assert !GivesUp(x, ts[..i], L1.Codes(ts)[..i]);
      }
    }
  }

  lemma StoredIff3(s: seq<byte>, x: seq<byte>, g: L3.Geometry, ts: seq<Token>)
    requires Packed3(s, x, g, ts)
    ensures s[0] % 2 == 0 <==> PoorRatio(|x|, |ts|, Span(ts), |Layout(L3.Codes(ts))|)
    ensures s[0] % 2 == 0 || Span(ts) == |x|
    ensures |s| == (if |x| < 216 then 3 else 9) + if s[0] % 2 == 0 then |x| else AtLeastNine(|Layout(L3.Codes(ts))|)
    ensures forall i :: 0 <= i < |ts| && s[0] % 2 == 1 ==>
              !PoorRatio(|x|, i, Span(ts[..i]), |Layout(L3.Codes(ts[..i]))|)
  {
    hide Layout, Header, L3.Parse, Span;
    HeaderReads(s, 3, !GivesUp(x, ts, L3.Codes(ts)), |s|, |x|);
    if s[0] % 2 == 1 {
      forall i | 0 <= i < |ts| ensures !PoorRatio(|x|, i, Span(ts[..i]), |Layout(L3.Codes(ts[..i]))|) {
        assert L3.Codes(ts)[..i] == L3.Codes(ts[..i]);
        assert !GivesUp(x, ts[..i], L3.Codes(ts)[..i]);
      }
    }
  }

  /** Store the header in front of what is already there. */
  method WriteHeader(out: array<byte>, level: nat, compressed: bool, r: nat, size: nat)
    requires level <= 3 && HeaderLength(size) <= out.Length
    modifies out
    ensures out[..HeaderLength(size)] == Header(level, compressed, r, size)
    ensures out[HeaderLength(size)..] == old(out[HeaderLength(size)..])
  {
    hide Le;
    var c := if compressed then 1 else 0;
    if size < 216 {
      out[0] := 64 + 4 * level + c;
      out[1] := r % 0x100;
      out[2] := size % 0x100;
    } else {
      FastWrite(r, out, 1, 4);
      FastWrite(size, out, 5, 4);
      assert out[1..5] == Le(r, 4);
      out[0] := 64 + 4 * level + 2 + c;
      assert out[1..5] == Le(r, 4) && out[5..9] == Le(size, 4);
      assert out[..9] == [out[0]] + out[1..5] + out[5..9];
    }
  }

  /** The first `r` elements: those before `base`, and those from there on. */
  lemma Parts(s: seq<byte>, base: nat, r: nat)
    requires base <= r <= |s|
    ensures s[..r][..base] == s[..base] && s[..r][base..] == s[base..r] == s[base..][..r - base]
    ensures s[base..] == s[base..|s|]
  {
  }

  /** qlz_compress at level 1. Returns 0 for a size it does not accept. */
  method Compress1(x: seq<byte>, out: array<byte>, st: C1.CompressState) returns (r: nat, ghost ts: seq<Token>)
    requires out.Length >= |x| + 400
    requires st.Shape() && out as object != st.offset && out as object != st.cache
    modifies out, st.offset, st.cache
    ensures r == 0 <==> |x| == 0 || |x| > 0xffff_ffff - 400
    ensures Accepted(|x|) ==> r <= |x| + 400 && Packed1(out[..r], x, st.hv, ts)
  {
    hide Layout, L1.Parse, L1.Codes, C1.CompressedAs, GivesUp, Header;
    r, ts := 0, [];
    if |x| == 0 || |x| > 0xffff_ffff - 400 {
      return;
    }
    var base := HeaderLength(|x|);
    st.Reset(x);
    r, ts := C1.CompressCore(x, out, base, st);
    var compressed := r != 0;
    if !compressed {
      CopyIn(x, 0, out, base, |x|);
      r := |x|;
      assert out[base..base + r] == x;
    }
    r := r + base;
    Parts(out[..], base, r);
    WriteHeader(out, 1, compressed, r, |x|);
    Parts(out[..], base, r);
  }

  method Compress3(x: seq<byte>, out: array<byte>, st: C3.CompressState) returns (r: nat, ghost ts: seq<Token>)
    requires out.Length >= |x| + 400
    requires st.Shape() && out as object != st.slot && out as object != st.counter
    modifies out, st.slot, st.counter
    ensures r == 0 <==> |x| == 0 || |x| > 0xffff_ffff - 400
    ensures Accepted(|x|) ==> r <= |x| + 400 && Packed3(out[..r], x, st.g, ts)
  {
    hide Layout, L3.Parse, L3.Codes, C3.CompressedAs, GivesUp, Header;
    r, ts := 0, [];
    if |x| == 0 || |x| > 0xffff_ffff - 400 {
      return;
    }
    var base := HeaderLength(|x|);
    st.Reset(x);
    r, ts := C3.CompressCore(x, out, base, st);
    var compressed := r != 0;
    if !compressed {
      CopyIn(x, 0, out, base, |x|);
      r := |x|;
      assert out[base..base + r] == x;
    }
    r := r + base;
    Parts(out[..], base, r);
    WriteHeader(out, 3, compressed, r, |x|);
    Parts(out[..], base, r);
  }

  /** What qlz_decompress demands of its input: the bytes that its header announces. */
  ghost predicate Readable(source: seq<byte>) {
    && |source| >= 1 && |source| >= HeaderSize(source)
    && (if source[0] % 2 == 1 then SizeCompressed(source) <= |source|
        else HeaderSize(source) + SizeDecompressed(source) <= |source|)
  }

  lemma FieldRange(s: seq<byte>)
    requires |s| >= 1 && |s| >= HeaderSize(s)
    ensures SizeDecompressed(s) < 0x1_0000_0000
  {
    var n := FieldWidth(s);
    if n == 4 {
      FromLe4(s[1 + n..1 + n + n]);
    } else {
      assert s[1 + n..1 + n + n] == [s[2]];
      OneByte(s[2]);
    }
  }

  /** A level-1 container is readable and its parts are what the decoder expects. */
  lemma Packed1Reads(s: seq<byte>, x: seq<byte>, hv: L1.Buckets, ts: seq<Token>)
    requires Packed1(s, x, hv, ts)
    ensures Readable(s) && SizeDecompressed(s) == |x| && HeaderSize(s) <= |s| == SizeCompressed(s)
    ensures if s[0] % 2 == 1 then D1.Spells(s[HeaderSize(s)..], x, hv, ts) else s[HeaderSize(s)..] == x
  {
    hide Layout, Header, GivesUp, L1.Parse;
    HeaderReads(s, 1, !GivesUp(x, ts, L1.Codes(ts)), |s|, |x|);
    L1.ParseResolves(x, hv, ts);
  }

  lemma Packed3Reads(s: seq<byte>, x: seq<byte>, g: L3.Geometry, ts: seq<Token>)
    requires Packed3(s, x, g, ts)
    ensures Readable(s) && SizeDecompressed(s) == |x| && HeaderSize(s) <= |s| == SizeCompressed(s)
    ensures if s[0] % 2 == 1 then D3.Spells(s[HeaderSize(s)..], x, ts) else s[HeaderSize(s)..] == x
  {
    hide Layout, Header, GivesUp, L3.Parse;
    HeaderReads(s, 3, !GivesUp(x, ts, L3.Codes(ts)), |s|, |x|);
    L3.ParseResolves(x, g, ts);
  }

  /** qlz_decompress at level 1. For any readable input it stays inside the announced
      size; a container for `x` yields `x`. */
  method Decompress1(words: bool, source: seq<byte>, dest: array<byte>, table: array<int>,
                     ghost x: seq<byte>, ghost ts: seq<Token>)
    returns (r: nat)
    requires Readable(source) && SizeDecompressed(source) <= dest.Length
    requires 0 < table.Length <= L1.MAX_HASH_VALUES && dest as object != table
    requires table.Length == L1.MAX_HASH_VALUES || Packed1(source, x, table.Length, ts)
    modifies dest, table
    ensures r == 0 || r == SizeDecompressed(source)
    ensures Packed1(source, x, table.Length, ts) ==> r == |x| && dest[..r] == x
    ensures forall k :: SizeDecompressed(source) <= k < dest.Length ==> dest[k] == old(dest[k])
  {
    hide Packed1, D1.Spells;
    FieldRange(source);
    var dsiz := SizeDecompressed(source);
    if Packed1(source, x, table.Length, ts) {
      Packed1Reads(source, x, table.Length, ts);
      Parts(source, HeaderSize(source), |source|);
    }
    if source[0] % 2 == 1 {
      r := D1.DecompressCore(words, source, dest, dsiz, table, x, ts);
    } else {
      CopyIn(source, HeaderSize(source), dest, 0, dsiz);
      assert dest[..dsiz] == dest[0..0 + dsiz] == source[HeaderSize(source)..HeaderSize(source) + dsiz];
      r := dsiz;
    }
  }

  method Decompress3(words: bool, source: seq<byte>, dest: array<byte>, ghost x: seq<byte>, ghost g: L3.Geometry,
                     ghost ts: seq<Token>)
    returns (r: nat)
    requires Readable(source) && SizeDecompressed(source) <= dest.Length
    modifies dest
    ensures r == 0 || r == SizeDecompressed(source)
    ensures Packed3(source, x, g, ts) ==> r == |x| && dest[..r] == x
    ensures forall k :: SizeDecompressed(source) <= k < dest.Length ==> dest[k] == old(dest[k])
  {
    hide Packed3, D3.Spells;
    FieldRange(source);
    var dsiz := SizeDecompressed(source);
    if Packed3(source, x, g, ts) {
      Packed3Reads(source, x, g, ts);
      Parts(source, HeaderSize(source), |source|);
    }
    if source[0] % 2 == 1 {
      r := D3.DecompressCore(words, source, dest, dsiz, x, ts);
    } else {
      CopyIn(source, HeaderSize(source), dest, 0, dsiz);
      assert dest[..dsiz] == dest[0..0 + dsiz] == source[HeaderSize(source)..HeaderSize(source) + dsiz];
      r := dsiz;
    }
  }

  /** Compressing and decompressing gives back every accepted text, with a table of any size
      and either way of copying matches. The decoder's table and both buffers start with
      whatever the memory held. */
  method RoundTrip1(x: seq<byte>, hv: L1.Buckets, words: bool) returns (y: seq<byte>)
    requires Accepted(|x|)
    ensures y == x
  {
    hide Packed1;
    var out := new byte[|x| + 400];
    var st := new C1.CompressState(hv);
    var r; ghost var ts;
    r, ts := Compress1(x, out, st);
    Packed1Reads(out[..r], x, hv, ts);
    var dest := new byte[|x|];
    var table := new int[hv];
    var n := Decompress1(words, out[..r], dest, table, x, ts);
    y := dest[..n];
  }

  method RoundTrip3(x: seq<byte>, g: L3.Geometry, words: bool) returns (y: seq<byte>)
    requires Accepted(|x|)
    ensures y == x
  {
    hide Packed3;
    var out := new byte[|x| + 400];
    var st := new C3.CompressState(g);
    var r; ghost var ts;
    r, ts := Compress3(x, out, st);
    Packed3Reads(out[..r], x, g, ts);
    var dest := new byte[|x|];
    var n := Decompress3(words, out[..r], dest, x, g, ts);
    y := dest[..n];
  }
}

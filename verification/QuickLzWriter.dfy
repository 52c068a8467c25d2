/** The output side of qlz_compress_core: cword_ptr, dst and cword_val, with the
    control word of the open group patched in behind the bodies already written. */
module QuickLzWriter {
  import opened Bytes
  import opened ControlWords

  method FastWrite(f: nat, out: array<byte>, p: nat, n: nat)
    requires 1 <= n <= 4 && p + n <= out.Length
    modifies out
    ensures out[p..p + n] == Le(f, n)
    ensures forall k :: 0 <= k < out.Length && !(p <= k < p + n) ==> out[k] == old(out[k])
  {
    LeDigits(f, n);
    out[p] := f % 0x100;
    if n > 1 {
      out[p + 1] := f / 0x100 % 0x100;
    }
    if n > 2 {
      out[p + 2] := f / 0x1_0000 % 0x100;
    }
    if n > 3 {
      out[p + 3] := f / 0x100_0000 % 0x100;
    }
  }

  /** Groups laid out one after another, then one more: word and bodies. */
  lemma GroupStored(s: seq<byte>, base: nat, w: nat, dst: nat, done: seq<Chunk>, open: seq<Chunk>)
    requires base <= w && w + 4 <= dst <= |s|
    requires |done| % GROUP == 0 && 0 < |open| <= GROUP
    requires s[base..w] == Layout(done)
    requires s[w..w + 4] == Le(Word(Flags(open) + Pad(GROUP - |open|)), 4)
    requires s[w + 4..dst] == Bodies(open)
    ensures s[base..dst] == Layout(done + open)
  {
    LayoutConcat(done, open);
    assert Layout(open) == Group(open);
    SliceJoin(s, w, w + 4, dst);
    SliceJoin(s, base, w, dst);
  }

  /** Writing `n` bytes at the end leaves what is in front of them alone. */
  lemma WrittenBehind(s: seq<byte>, t: seq<byte>, base: nat, w: nat, dst: nat, n: nat)
    requires base <= w && w + 4 <= dst && dst + n <= |s| == |t|
    requires forall k :: 0 <= k < |s| && !(dst <= k < dst + n) ==> t[k] == s[k]
    ensures t[..base] == s[..base] && t[base..w] == s[base..w]
    ensures t[w + 4..dst + n] == s[w + 4..dst] + t[dst..dst + n]
  {
    SliceJoin(t, w + 4, dst, dst + n);
  }

  /** Shift an unfinished control word until its sentinel is the low bit. */
  method ShiftDown(cword: nat, ghost n: nat, ghost v: nat) returns (w: nat)
    requires cword == Scaled(n, v)
    ensures w == Scaled(0, v)
  {
    w := cword;
    ghost var j := n;
    while w % 2 != 1
      invariant w == Scaled(j, v)
      decreases j
    {
      w := w / 2;
      j := j - 1;
    }
  }

  class Writer {
    const out: array<byte>
    const base: nat
    var cwordPtr: nat
    var dst: nat
    var cword: nat
    ghost var done: seq<Chunk>
    ghost var open: seq<Chunk>

    ghost predicate Valid()
      reads this, out
    {
      && |done| % GROUP == 0 && |open| <= GROUP
      && base <= cwordPtr && cwordPtr + 4 <= dst <= out.Length
      && out[base..cwordPtr] == Layout(done)
      && out[cwordPtr + 4..dst] == Bodies(open)
      && cword == Collecting(open)
    }

    /** Bytes of output so far, the open control word included. */
    function Written(): nat
      requires base <= dst
      reads this
    {
      dst - base
    }

    constructor (out: array<byte>, base: nat)
      requires base + 4 <= out.Length
      ensures Valid() && this.out == out && this.base == base
      ensures done == [] && open == [] && dst == base + 4
    {
      this.out, this.base := out, base;
      cwordPtr, dst, cword := base, base + 4, 0x8000_0000;
      done, open := [], [];
      CollectingEmpty();
    }

    /** Write the control word of the open group, its flags shifted to the bottom. */
    method StoreWord(ghost v: nat)
      requires |done| % GROUP == 0 && 0 < |open| <= GROUP
      requires base <= cwordPtr && cwordPtr + 4 <= dst <= out.Length
      requires out[base..cwordPtr] == Layout(done) && out[cwordPtr + 4..dst] == Bodies(open)
      requires v == Val(Flags(open)) && cword == Scaled(0, v)
      modifies out
      ensures out[base..dst] == Layout(done + open)
      ensures out[..base] == old(out[..base])
    {
      hide Layout, Bodies, Le, Val, Word, Collecting;
      CollectedWord(open, GROUP - |open|);
      var w := cword / 2 + 0x8000_0000;
      assert w == Word(Flags(open) + Pad(GROUP - |open|));
      FastWrite(w, out, cwordPtr, 4);
      assert out[base..cwordPtr] == old(out[base..cwordPtr]);
      assert out[cwordPtr + 4..dst] == old(out[cwordPtr + 4..dst]);
      ghost var s := out[..];
      assert s[base..cwordPtr] == out[base..cwordPtr];
      assert s[cwordPtr..cwordPtr + 4] == out[cwordPtr..cwordPtr + 4];
      assert s[cwordPtr + 4..dst] == out[cwordPtr + 4..dst];
      GroupStored(s, base, cwordPtr, dst, done, open);
      assert s[base..dst] == out[base..dst];
    }

    /** Write the full control word and leave room for the next one. */
    method NextWord()
      requires Valid() && |open| == GROUP && dst + 4 <= out.Length
      modifies this, out
      ensures Valid() && done == old(done + open) && open == []
      ensures dst == old(dst) + 4
      ensures out[..base] == old(out[..base])
    {
      hide Layout, Val;
      StoreWord(Val(Flags(open)));
      CollectingEmpty();
      assert |done + open| % GROUP == 0;
      cwordPtr, dst, cword := dst, dst + 4, 0x8000_0000;
      done, open := done + open, [];
    }

    method PutLiteral(b: byte)
      requires Valid() && |open| < GROUP && dst < out.Length
      modifies this, out
      ensures Valid() && done == old(done) && open == old(open) + [Chunk(false, [b])]
      ensures dst == old(dst) + 1
      ensures out[..base] == old(out[..base])
    {
      hide Layout, Bodies, Val, Scaled, Collecting;
      CollectingPush(open, Chunk(false, [b]));
      BodiesSnoc(open, Chunk(false, [b]));
      ghost var before := out[..];
      out[dst] := b;
      WrittenBehind(before, out[..], base, cwordPtr, dst, 1);
      assert out[dst..dst + 1] == [b];
      dst := dst + 1;
      cword := cword / 2;
      open := open + [Chunk(false, [b])];
    }

    /** Write the `n` bytes of a match token. */
    method PutMatch(f: nat, n: nat)
      requires Valid() && |open| < GROUP && 1 <= n <= 4 && dst + n <= out.Length
      modifies this, out
      ensures Valid() && done == old(done) && open == old(open) + [Chunk(true, Le(f, n))]
      ensures dst == old(dst) + n
      ensures out[..base] == old(out[..base])
    {
      hide Layout, Bodies, Le, Val, Scaled, Collecting;
      CollectingPush(open, Chunk(true, Le(f, n)));
      BodiesSnoc(open, Chunk(true, Le(f, n)));
      cword := cword / 2 + 0x8000_0000;
      ghost var before := out[..];
      FastWrite(f, out, dst, n);
      WrittenBehind(before, out[..], base, cwordPtr, dst, n);
      assert forall a, b :: 0 <= a <= b <= out.Length ==> out[a..b] == out[..][a..b];
      dst := dst + n;
      open := open + [Chunk(true, Le(f, n))];
    }

    /** Shift the last word into place and write it. */
    method Finish()
      requires Valid() && open != []
      modifies this, out
      ensures base <= dst <= out.Length && dst == old(dst)
      ensures out[base..dst] == Layout(old(done + open))
      ensures out[..base] == old(out[..base])
    {
      hide Layout, Bodies, Val, Flags, Scaled;
      ghost var v := Val(Flags(open));
      cword := ShiftDown(cword, GROUP - |open|, v);
      StoreWord(v);
    }
  }

  // ----- Room for the output

  /** Output of `w` bytes for `src` bytes of an `n`-byte text, when the last of `f`
      flushes happened at `s0` and `k` tokens followed it. Past the middle of the
      text the give-up test keeps the output behind the input. */
  ghost predicate Budget(n: nat, src: nat, s0: nat, f: nat, k: nat, w: nat) {
    && GROUP * f <= s0 <= src <= n
    && k <= GROUP
    && w <= src + 4 * f + 4
    && (if s0 > n / 2 then w <= src + 4 else w <= s0 + 4 * f + 4 + 4 * k)
  }

  lemma BudgetBound(n: nat, src: nat, s0: nat, f: nat, k: nat, w: nat)
    requires Budget(n, src, s0, f, k, w)
    ensures w <= n + 4 + 4 * GROUP
    ensures n < 216 ==> w <= src + 16
  {
  }

  /** A token never takes more bytes than it stands for, and at most four. */
  lemma BudgetPush(n: nat, src: nat, s0: nat, f: nat, k: nat, w: nat, text: nat, bytes: nat)
    requires Budget(n, src, s0, f, k, w)
    requires k < GROUP && bytes <= text && bytes <= 4 && src + text <= n
    ensures Budget(n, src + text, s0, f, k + 1, w + bytes)
  {
  }

  lemma BudgetFlush(n: nat, src: nat, s0: nat, f: nat, w: nat)
    requires Budget(n, src, s0, f, GROUP, w)
    requires GROUP * (f + 1) <= src
    requires src > n / 2 ==> w <= src - src / 32
    ensures Budget(n, src, src, f + 1, 0, w + 4)
  {
  }
}

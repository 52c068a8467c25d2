/** memcpy_up, byte-wise and in words. */
module QuickLzCopy {
  import opened Bytes
  import opened QuickLzTokens

  /** memcpy_up on the byte-wise path: always forward, one byte at a time, so an
      overlapping copy repeats what it has just written. */
  method MemcpyUp(buf: array<byte>, dst: nat, src: nat, n: nat)
    requires src < dst && dst + n <= buf.Length
    modifies buf
    ensures buf[..dst] == old(buf[..dst])
    ensures Copies(buf[..], src, dst, n)
    ensures buf[dst + n..] == old(buf[dst + n..])
  {
    var k := 0;
    while k < n
      invariant k <= n
      invariant buf[..dst] == old(buf[..dst])
      invariant forall j :: dst <= j < dst + k ==> buf[j] == buf[j - (dst - src)]
      invariant buf[dst + k..] == old(buf[dst + k..])
    {
      buf[dst + k] := buf[src + k];
      k := k + 1;
    }
  }

  /** memcpy_up on the unaligned path: four bytes at a time in strides of three, at least
      once. From at least three bytes back it leaves the same `n` bytes as the byte-wise
      copy, and disturbs at most the three bytes after them, or four when `n` is 0. */
  method MemcpyUpWords(buf: array<byte>, dst: nat, src: nat, n: nat)
    requires src + 3 <= dst && dst + WordsReach(n) <= buf.Length
    modifies buf
    ensures buf[..dst] == old(buf[..dst])
    ensures Copies(buf[..], src, dst, n)
    ensures buf[dst + WordsReach(n)..] == old(buf[dst + WordsReach(n)..])
  {
    var f := 0;
    while true
      invariant f == 0 || f < n
      invariant buf[..dst] == old(buf[..dst])
      invariant forall j :: dst <= j < dst + f ==> buf[j] == buf[j - (dst - src)]
      invariant buf[dst + WordsReach(n)..] == old(buf[dst + WordsReach(n)..])
      decreases n - f
    {
      var b0, b1, b2, b3 := buf[src + f], buf[src + f + 1], buf[src + f + 2], buf[src + f + 3];
      buf[dst + f], buf[dst + f + 1], buf[dst + f + 2], buf[dst + f + 3] := b0, b1, b2, b3;
      f := f + 3;
      if f >= n {
        break;
      }
    }
  }

  /** How far the copy in words writes: the four bytes that every stream's end reserves are
      enough for what it writes too much. */
  function WordsReach(n: nat): (r: nat)
    ensures n < r <= n + UNCOMPRESSED_END
  {
    if n == 0 then 4 else n + 3
  }

  /** The copy of a match, on either path. */
  method CopyMatch(words: bool, buf: array<byte>, dst: nat, src: nat, n: nat)
    requires src + 3 <= dst && dst + n + UNCOMPRESSED_END <= buf.Length
    modifies buf
    ensures buf[..dst] == old(buf[..dst])
    ensures Copies(buf[..], src, dst, n)
    ensures forall k :: dst + n + UNCOMPRESSED_END <= k < buf.Length ==> buf[k] == old(buf[k])
  {
    hide Copies;
    ghost var before := buf[..];
    if words {
      MemcpyUpWords(buf, dst, src, n);
      TailKept(before, buf[..], dst + WordsReach(n));
    } else {
      MemcpyUp(buf, dst, src, n);
      TailKept(before, buf[..], dst + n);
    }
  }

  lemma TailKept(s: seq<byte>, t: seq<byte>, a: nat)
    requires a <= |s| == |t| && s[a..] == t[a..]
    ensures forall k :: a <= k < |s| ==> t[k] == s[k]
  {
    forall k | a <= k < |s|
      ensures t[k] == s[k]
    {
      assert s[k] == s[a..][k - a] && t[k] == t[a..][k - a];
    }
  }

  /** Out of equal beginnings, the same forward copy makes equal continuations. */
  lemma {:induction false} CopyAgrees(out: seq<byte>, x: seq<byte>, p: nat, d: nat, len: nat)
    requires p < d && d + len <= |x| && d + len <= |out|
    requires out[..d] == x[..d] && Copies(x, p, d, len) && Copies(out, p, d, len)
    ensures out[..d + len] == x[..d + len]
  {
    if len > 0 {
      CopyAgrees(out, x, p, d, len - 1);
      var k := d + len - 1;
      assert out[k - (d - p)] == out[..k][k - (d - p)] == x[..k][k - (d - p)];
    }
  }
}

/** GetNextTag and FixDataMatchingTag: they cut the buffer into C strings by writing terminators
    into it. `s` is the text as it was before any of it was cut. */
module PlistScan {
  import opened Plist

  /** From `p` on, the buffer still holds the text. */
  ghost predicate Uncut(buffer: array<char>, p: nat, s: string)
    reads buffer
  {
    buffer.Length == |s| && p < |s| && Terminated(s) && forall k :: p <= k < |s| ==> buffer[k] == s[k]
  }

  /** Exactly the positions `cuts` were terminated. */
  twostate predicate Cut(buffer: array<char>, cuts: set<nat>)
    reads buffer
  {
    forall k :: 0 <= k < buffer.Length ==> buffer[k] == if k in cuts then NUL else old(buffer[k])
  }

  /** Finds a tag and terminates its name. */
  method GetNextTag(buffer: array<char>, p: nat, ghost s: string) returns (m: Mark)
    requires Uncut(buffer, p, s)
    modifies buffer
    ensures m == NextTag(s, p)
    ensures Cut(buffer, if m.Mark? then {m.end} else {})
  {
    var cnt := p;
    while buffer[cnt] != NUL && buffer[cnt] != '<'
      invariant p <= cnt < |s|
      invariant Scan(s, p, '<') == Scan(s, cnt, '<')
      decreases |s| - cnt
    {
      cnt := cnt + 1;
    }
    if buffer[cnt] == NUL {
      return NoMark;
    }
    var cnt2 := cnt + 1;
    while buffer[cnt2] != NUL && buffer[cnt2] != '>'
      invariant cnt < cnt2 < |s|
      invariant Scan(s, cnt + 1, '>') == Scan(s, cnt2, '>')
      decreases |s| - cnt2
    {
      cnt2 := cnt2 + 1;
    }
    if buffer[cnt2] == NUL {
      return NoMark;
    }
    buffer[cnt2] := NUL;
    return Mark(cnt, cnt2);
  }

  /** Where a terminator ends some text, that text is the C string. */
  lemma CStringIs(s: string, p: nat, t: string)
    requires Terminated(s) && p + |t| < |s| && s[p..p + |t|] == t && NUL !in t && s[p + |t|] == NUL
    ensures CString(s, p) == t
  {
    forall k | p <= k < p + |t|
      ensures s[k] != NUL
    {
      assert s[k] == t[k - p];
    }
  }

  /** The name of a tag just found, as the comparisons of the caller see it. */
  lemma NameSeen(buffer: array<char>, p: nat, s: string, m: Mark)
    requires buffer.Length == |s| && Terminated(s) && p < |s| && m.Mark? && m == NextTag(s, p)
    requires forall k :: p <= k < |s| ==> buffer[k] == if k == m.end then NUL else s[k]
    ensures Terminated(buffer[..]) && CString(buffer[..], m.start + 1) == Name(s, m)
  {
    CStringIs(buffer[..], m.start + 1, Name(s, m));
  }

  /** A C string `t` stands at `p`. */
  predicate Holds(b: seq<char>, p: nat, t: string) {
    p + |t| < |b| && b[p..p + |t|] == t && b[p + |t|] == NUL && NUL !in t
  }

  lemma EndTagStep(s: string, p: nat, tag: string)
    requires Terminated(s) && p < |s|
    ensures var m := NextTag(s, p);
            EndTag(s, p, tag) == if m.NoMark? || Name(s, m) == "/" + tag then m else EndTag(s, m.end + 1, tag)
  {
  }

  /** The end tag of an element's data: terminates the data and returns the position behind the
      tag, or returns -1. */
  method FixDataMatchingTag(buffer: array<char>, p: nat, tag: string, ghost s: string) returns (next: int)
    requires Uncut(buffer, p, s)
    modifies buffer
    ensures next == (if EndTag(s, p, tag).NoMark? then -1 else EndTag(s, p, tag).end + 1)
    ensures next != -1 ==> Uncut(buffer, next, s)
    ensures next != -1 ==> Holds(buffer[..], p, Text(s, p, tag)) && p + |Text(s, p, tag)| < next
    ensures forall k :: 0 <= k < p ==> buffer[k] == old(buffer[k])
  {
    hide Scan, NextTag, Name, Text, CString, Terminated, EndTag, Holds;
    var start := p;
    ghost var first := NextTag(s, p);
    while true
      invariant p <= start < |s| == buffer.Length && Uncut(buffer, start, s)
      invariant EndTag(s, p, tag) == EndTag(s, start, tag)
      invariant start > p ==> first.Mark? && first.end < start
      invariant start > p ==> Name(s, first) != "/" + tag && buffer[first.end] == NUL
      invariant start > p ==> forall k :: p <= k < first.end ==> buffer[k] == s[k]
      invariant forall k :: 0 <= k < p ==> buffer[k] == old(buffer[k])
      decreases |s| - start
    {
      var m := GetNextTag(buffer, start, s);
      EndTagStep(s, start, tag);
      if m == NoMark {
        return -1;
      }
      NameSeen(buffer, start, s, m);
      if CString(buffer[..], m.start + 1) == "/" + tag {
        buffer[m.start] := NUL;
        next := m.end + 1;
        DataHeld(buffer, p, tag, s, start, m);
        return;
      }
      start := m.end + 1;
    }
  }

  lemma DataHeld(buffer: array<char>, p: nat, tag: string, s: string, start: nat, m: Mark)
    requires buffer.Length == |s| && Terminated(s) && p <= start < |s|
    requires m.Mark? && m == NextTag(s, start) && Name(s, m) == "/" + tag && EndTag(s, p, tag) == m
    requires start > p ==> NextTag(s, p).Mark? && NextTag(s, p).end < start && Name(s, NextTag(s, p)) != "/" + tag
    requires start > p ==> buffer[NextTag(s, p).end] == NUL
    requires start > p ==> forall k :: p <= k < NextTag(s, p).end ==> buffer[k] == s[k]
    requires forall k :: start <= k < |s| ==> buffer[k] == if k == m.end || k == m.start then NUL else s[k]
    ensures Uncut(buffer, m.end + 1, s) && Holds(buffer[..], p, Text(s, p, tag)) && p + |Text(s, p, tag)| < m.end
  {
    hide EndTag, NextTag, Scan, Name;
    var t := Text(s, p, tag);
    assert buffer[p..p + |t|] == t;
  }
}

/** Where a piece of text stands in a longer one. */
module Texts {
  /** `w` stands at `p`. */
  predicate Occurs(s: string, p: nat, w: string) {
    p + |w| <= |s| && s[p..p + |w|] == w
  }

  lemma OccursSplit(s: string, p: nat, a: string, b: string)
    requires Occurs(s, p, a + b)
    ensures Occurs(s, p, a) && Occurs(s, p + |a|, b)
  {
    assert s[p..p + |a|] == s[p..p + |a + b|][..|a|];
    assert s[p + |a|..p + |a| + |b|] == s[p..p + |a + b|][|a|..];
  }

  lemma OccursAt(s: string, p: nat, w: string, k: nat)
    requires Occurs(s, p, w) && k < |w|
    ensures p + k < |s| && s[p + k] == w[k]
  {
    assert s[p + k] == s[p..p + |w|][k];
  }
}

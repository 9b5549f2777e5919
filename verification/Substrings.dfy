/** A word standing at some place of a longer string. */
module Substrings {

  /** w stands in s at p. The comparison sits behind some steps of recursion, so that proofs
      use the lemmas below instead of unfolding it. */
  ghost predicate Holds<T>(s: seq<T>, p: nat, w: seq<T>)
  {
    p + |w| <= |s| && HoldsAfter(s, p, w, p + 2)
  }

  ghost predicate HoldsAfter<T>(s: seq<T>, p: nat, w: seq<T>, steps: nat)
    requires p + |w| <= |s|
  {
    if steps > 0 then HoldsAfter(s, p, w, steps - 1) else s[p..p + |w|] == w
  }

  lemma {:induction false} HoldsSteps<T>(s: seq<T>, p: nat, w: seq<T>, steps: nat)
    requires p + |w| <= |s|
    ensures HoldsAfter(s, p, w, steps) <==> s[p..p + |w|] == w
  {
    if steps == 0 {
    } else {
      HoldsSteps(s, p, w, steps - 1);
    }
  }

  lemma HoldsSlice<T>(s: seq<T>, p: nat, w: seq<T>)
    ensures Holds(s, p, w) <==> p + |w| <= |s| && s[p..p + |w|] == w
  {
    if p + |w| <= |s| {
      HoldsSteps(s, p, w, p + 2);
    }
  }

  lemma HoldsConcat<T>(s: seq<T>, p: nat, v: seq<T>, w: seq<T>)
    ensures Holds(s, p, v + w) <==> Holds(s, p, v) && Holds(s, p + |v|, w)
    ensures Holds(s, p, v + w) ==> p + |v| + |w| <= |s|
  {
    HoldsSlice(s, p, v + w);
    HoldsSlice(s, p, v);
    HoldsSlice(s, p + |v|, w);
    if p + |v| + |w| <= |s| {
      var both := s[p..p + |v| + |w|];
      assert both == s[p..p + |v|] + s[p + |v|..p + |v| + |w|];
      assert both[..|v|] == s[p..p + |v|] && both[|v|..] == s[p + |v|..p + |v| + |w|];
      assert (v + w)[..|v|] == v && (v + w)[|v|..] == w;
    }
  }

  lemma HoldsAt<T>(s: seq<T>, p: nat, w: seq<T>, k: nat)
    requires Holds(s, p, w) && k < |w|
    ensures s[p + k] == w[k]
  {
    HoldsSlice(s, p, w);
    assert s[p..p + |w|][k] == w[k];
  }
}

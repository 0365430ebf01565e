/** A sequence that stands somewhere in another one. */
module Occurrence {

  /** The sequence `w` stands at position `p`. */
  ghost predicate Holds<T>(t: seq<T>, p: nat, w: seq<T>) {
    p + |w| <= |t| && forall k {:trigger w[k]} :: 0 <= k < |w| ==> t[p + k] == w[k]
  }

  lemma HoldsAt<T>(t: seq<T>, p: nat, w: seq<T>, k: nat)
    requires Holds(t, p, w) && k < |w|
    ensures t[p + k] == w[k]
  {
  }

  lemma HoldsSlice<T>(t: seq<T>, p: nat, w: seq<T>)
    requires Holds(t, p, w)
    ensures t[p..p + |w|] == w
  {
  }

  /** One sequence after another stands at two places. */
  lemma HoldsSplit<T>(t: seq<T>, p: nat, a: seq<T>, b: seq<T>)
    requires Holds(t, p, a + b)
    ensures Holds(t, p, a) && Holds(t, p + |a|, b)
  {
    var w := a + b;
    forall k | 0 <= k < |a|
      ensures t[p + k] == a[k]
    {
      assert w[k] == a[k];
    }
    forall k | 0 <= k < |b|
      ensures t[p + |a| + k] == b[k]
    {
      assert w[|a| + k] == b[k];
    }
  }

  lemma HoldsJoin<T>(t: seq<T>, p: nat, a: seq<T>, b: seq<T>)
    requires Holds(t, p, a) && Holds(t, p + |a|, b)
    ensures Holds(t, p, a + b)
  {
    var w := a + b;
    forall k | 0 <= k < |w|
      ensures t[p + k] == w[k]
    {
      if k < |a| {
        assert w[k] == a[k];
      } else {
        assert w[k] == b[k - |a|];
      }
    }
  }
}

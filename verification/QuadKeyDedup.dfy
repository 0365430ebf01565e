/** The erase-in-place removal of repeated keys, used twice by `QuadKeyTS`. */
module QuadKeyDedup {
  import opened MachineWords
  import opened QuadKeyWords
  import opened Sequences

  /** `i++` on an unsigned 64-bit number. */
  function Increment64(i: nat): nat {
    if i + 1 == TWO_64 then 0 else i + 1
  }

  /** `i--` on an unsigned 64-bit number. */
  function Decrement64(i: nat): nat {
    if i == 0 then TWO_64 - 1 else i - 1
  }

  function Erase(s: seq<QuadKey>, k: nat): (r: seq<QuadKey>)
    requires k < |s|
    ensures |r| == |s| - 1
    ensures forall b :: 0 <= b < |r| ==> r[b] == s[if b < k then b else b + 1]
  {
    s[..k] + s[k + 1..]
  }

  /** The first occurrence of every key, in the order of the list. */
  function Dedup(s: seq<QuadKey>): (r: seq<QuadKey>)
    ensures forall x :: x in r <==> x in s
    ensures NoDup(r)
  {
    if s == [] then []
    else
      var front, last := s[..|s| - 1], s[|s| - 1];
      assert s == front + [last];
      if last in front then Dedup(front) else Dedup(front) + [last]
  }

  ghost predicate Increasing(idx: seq<nat>) {
    forall i, j :: 0 <= i < j < |idx| ==> idx[i] < idx[j]
  }

  predicate FirstAt(s: seq<QuadKey>, n: nat)
    requires n < |s|
  {
    forall m :: 0 <= m < n ==> s[m] != s[n]
  }

  ghost predicate Selects(s: seq<QuadKey>, idx: seq<nat>, r: seq<QuadKey>) {
    |idx| == |r| && forall i :: 0 <= i < |idx| ==> idx[i] < |s| && FirstAt(s, idx[i]) && r[i] == s[idx[i]]
  }

  lemma {:induction false} DedupNoDup(s: seq<QuadKey>)
    requires NoDup(s)
    ensures Dedup(s) == s
  {
    if s != [] {
      DedupNoDup(s[..|s| - 1]);
      assert s == s[..|s| - 1] + [s[|s| - 1]];
    }
  }

  lemma ErasedCopyLosesNothing(s: seq<QuadKey>, i: nat, k: nat, x: QuadKey)
    requires i < k < |s| && s[i] == s[k]
    ensures x in Erase(s, k) <==> x in s
  {
  }

  lemma DedupAppend(front: seq<QuadKey>, x: QuadKey)
    ensures Dedup(front + [x]) == if x in front then Dedup(front) else Dedup(front) + [x]
  {
  }

  lemma EraseFront(front: seq<QuadKey>, x: QuadKey, k: nat)
    requires k < |front|
    ensures Erase(front + [x], k) == Erase(front, k) + [x]
  {
  }

  lemma FirstAtFront(front: seq<QuadKey>, x: QuadKey)
    ensures forall m :: 0 <= m < |front| ==> (FirstAt(front + [x], m) <==> FirstAt(front, m))
    ensures FirstAt(front + [x], |front|) <==> x !in front
  {
    var s := front + [x];
    assert s[|front|] == x;
    forall m | 0 <= m < |front|
      ensures s[m] == front[m]
      ensures FirstAt(s, m) <==> FirstAt(front, m)
    {
      assert forall j :: 0 <= j <= m ==> s[j] == front[j];
    }
  }

  /** `Dedup` selects exactly the positions at which a key occurs for the first time. */
  lemma {:induction false} DedupSelectsFirstOccurrences(s: seq<QuadKey>) returns (idx: seq<nat>)
    ensures Increasing(idx) && Selects(s, idx, Dedup(s))
    ensures forall n :: 0 <= n < |s| && FirstAt(s, n) ==> n in idx
  {
    idx := [];
    if s != [] {
      var n := |s| - 1;
      var front, x := s[..n], s[n];
      assert s == front + [x];
      DedupAppend(front, x);
      idx := DedupSelectsFirstOccurrences(front);
      FirstAtFront(front, x);
      if x !in front {
        idx := idx + [n];
        assert idx[|idx| - 1] == n;
      }
    }
  }

  /** Erasing a later copy does not change which first occurrences there are. */
  lemma {:induction false} DedupErase(s: seq<QuadKey>, i: nat, k: nat)
    requires i < k < |s| && s[i] == s[k]
    ensures Dedup(Erase(s, k)) == Dedup(s)
  {
    var front, x := s[..|s| - 1], s[|s| - 1];
    assert s == front + [x];
    DedupAppend(front, x);
    if k == |front| {
      assert Erase(s, k) == front && front[i] == x;
    } else {
      DedupErase(front, i, k);
      EraseFront(front, x, k);
      ErasedCopyLosesNothing(front, i, k, x);
      DedupAppend(Erase(front, k), x);
    }
  }

  /** The key at `i` occurs nowhere else. */
  ghost predicate UniqueAt(v: seq<QuadKey>, i: nat)
    requires i < |v|
  {
    forall b :: 0 <= b < |v| && b != i ==> v[b] != v[i]
  }

  /** The inner loop: the first other position that holds the key of position `i`. */
  method FirstOtherCopy(v: seq<QuadKey>, i: nat) returns (found: bool, k: nat)
    requires i < |v|
    ensures !found ==> UniqueAt(v, i)
    ensures found ==> k < |v| && k != i && v[k] == v[i]
  {
    k := 0;
    while k < |v|
      invariant k <= |v|
      invariant forall b :: 0 <= b < k && b != i ==> v[b] != v[i]
    {
      if i != k && v[i] == v[k] {
        return true, k;
      }
      k := k + 1;
    }
    return false, k;
  }

  /**
   The outer loop. `i--` runs before the loop's own `i++`, on an unsigned counter, so at 0
   it wraps to the largest value and comes back.
   */
  method RemoveDuplicates(keys: seq<QuadKey>) returns (v: seq<QuadKey>)
    requires |keys| < TWO_64
    ensures v == Dedup(keys)
  {
    v := keys;
    var i: nat := 0;
    while i < |v|
      invariant i <= |v| <= |keys|
      invariant Dedup(v) == Dedup(keys)
      invariant forall a :: 0 <= a < i ==> UniqueAt(v, a)
      decreases |v|, |v| - i
    {
      var found, k := FirstOtherCopy(v, i);
      if found {
        EraseStep(v, i, k);
        v := Erase(v, k);
        ghost var here := i;
        i := Decrement64(i);
        assert Increment64(i) == here;
      }
      i := Increment64(i);
    }
    AllUniqueNoDup(v);
    DedupNoDup(v);
  }

  lemma AllUniqueNoDup(v: seq<QuadKey>)
    requires forall a :: 0 <= a < |v| ==> UniqueAt(v, a)
    ensures NoDup(v)
  {
    forall a, b | 0 <= a < b < |v|
      ensures v[a] != v[b]
    {
      assert UniqueAt(v, a);
    }
  }

  lemma EraseStep(v: seq<QuadKey>, i: nat, k: nat)
    requires i < |v| && k < |v| && i != k && v[i] == v[k]
    requires forall a :: 0 <= a < i ==> UniqueAt(v, a)
    ensures i < k
    ensures Dedup(Erase(v, k)) == Dedup(v)
    ensures forall a :: 0 <= a < i ==> UniqueAt(Erase(v, k), a)
  {
    assert k < i ==> UniqueAt(v, k);
    DedupErase(v, i, k);
    UniqueAfterErase(v, Erase(v, k), i, k);
  }

  lemma UniqueAfterErase(v: seq<QuadKey>, e: seq<QuadKey>, i: nat, k: nat)
    requires i < k < |v| && |e| == |v| - 1
    requires forall b :: 0 <= b < |e| ==> e[b] == v[if b < k then b else b + 1]
    requires forall a :: 0 <= a < i ==> UniqueAt(v, a)
    ensures forall a :: 0 <= a < i ==> UniqueAt(e, a)
  {
    forall a | 0 <= a < i
      ensures UniqueAt(e, a)
    {
      assert UniqueAt(v, a);
    }
  }
}

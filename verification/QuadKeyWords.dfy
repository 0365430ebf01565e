/**
 Quadkeys as words over the digits '0'..'3', and what a list of them means.

 The broker-side filter `quadkeys LIKE 'key%'` accepts a message when the quadkey the
 message carries starts with `key`. A list of keys therefore stands for the set of words
 that have one of the keys as a prefix, and this module studies that reading: which lists
 mean the same, which lists are canonical, and why a canonical list is unique and smallest.
 */
module QuadKeyWords {
  import opened Sequences

  type Digit = c: char | '0' <= c <= '3' witness '0'

  type QuadKey = seq<Digit>

  /** The digits in the order in which the four children of a tile are listed. */
  const FIRST: Digit := '0'
  const LAST: Digit := '3'

  predicate Prefix(k: QuadKey, w: QuadKey) {
    k <= w
  }

  /** The filter made of `keys` accepts the quadkey `w`. */
  predicate Covers(keys: seq<QuadKey>, w: QuadKey) {
    exists i :: 0 <= i < |keys| && Prefix(keys[i], w)
  }

  /** Two lists accept the same quadkeys of at least `level` digits. */
  ghost predicate SameCoverage(a: seq<QuadKey>, b: seq<QuadKey>, level: nat) {
    forall w: QuadKey :: level <= |w| ==> Covers(a, w) == Covers(b, w)
  }

  function Child(m: QuadKey, d: Digit): (k: QuadKey) {
    m + [d]
  }

  function Parent(k: QuadKey): QuadKey
    requires k != []
  {
    k[..|k| - 1]
  }

  function Last(k: QuadKey): Digit
    requires k != []
  {
    k[|k| - 1]
  }

  /** All four children of `m` are in the list. */
  predicate HasQuad(keys: seq<QuadKey>, m: QuadKey) {
    Child(m, '0') in keys && Child(m, '1') in keys && Child(m, '2') in keys && Child(m, '3') in keys
  }

  lemma MissingChild(keys: seq<QuadKey>, m: QuadKey) returns (d: Digit)
    requires !HasQuad(keys, m)
    ensures Child(m, d) !in keys
  {
    d := if Child(m, '0') !in keys then '0' else if Child(m, '1') !in keys then '1'
         else if Child(m, '2') !in keys then '2' else '3';
  }

  lemma ChildOfQuad(keys: seq<QuadKey>, m: QuadKey, d: Digit)
    requires HasQuad(keys, m)
    ensures Child(m, d) in keys
  {
    assert d == '0' || d == '1' || d == '2' || d == '3';
  }

  /** No further merge is possible. */
  ghost predicate NoQuad(keys: seq<QuadKey>) {
    forall m: QuadKey :: !HasQuad(keys, m)
  }

  /** No key makes another one redundant (and none is repeated). */
  ghost predicate PrefixFree(keys: seq<QuadKey>) {
    forall i, j :: 0 <= i < |keys| && 0 <= j < |keys| && i != j ==> !Prefix(keys[i], keys[j])
  }

  ghost predicate AtMost(keys: seq<QuadKey>, level: nat) {
    forall i :: 0 <= i < |keys| ==> |keys[i]| <= level
  }

  /** A list of keys of at most `level` digits that cannot be shortened by merging. */
  ghost predicate Canonical(keys: seq<QuadKey>, level: nat) {
    PrefixFree(keys) && NoQuad(keys) && AtMost(keys, level)
  }

  // ---- Prefixes ----

  lemma PrefixTransitive(a: QuadKey, b: QuadKey, c: QuadKey)
    requires Prefix(a, b) && Prefix(b, c)
    ensures Prefix(a, c)
  {
  }

  /** Two prefixes of the same word are comparable. */
  lemma PrefixesOfOneWord(a: QuadKey, b: QuadKey, w: QuadKey)
    requires Prefix(a, w) && Prefix(b, w)
    ensures Prefix(a, b) || Prefix(b, a)
  {
    assert a == w[..|a|] && b == w[..|b|];
  }

  /** A longer word extends `m` exactly when it extends one of its children. */
  lemma ChildrenPartition(m: QuadKey, w: QuadKey)
    requires |m| < |w|
    ensures Prefix(m, w) <==> Prefix(Child(m, w[|m|]), w)
    ensures forall d: Digit :: Prefix(Child(m, d), w) ==> d == w[|m|] && Prefix(m, w)
  {
    if Prefix(m, w) {
      assert w[..|m| + 1] == w[..|m|] + [w[|m|]];
      assert w == w[..|m| + 1] + w[|m| + 1..];
    }
    forall d: Digit | Prefix(Child(m, d), w)
      ensures d == w[|m|] && Prefix(m, w)
    {
      assert Child(m, d)[|m|] == w[|m|];
      assert m == w[..|m|];
    }
  }

  lemma CoversIntro(keys: seq<QuadKey>, k: QuadKey, w: QuadKey)
    requires k in keys && Prefix(k, w)
    ensures Covers(keys, w)
  {
    var i :| 0 <= i < |keys| && keys[i] == k;
  }

  /** What a list accepts depends only on which keys it holds. */
  lemma CoverageOfSameKeys(a: seq<QuadKey>, b: seq<QuadKey>, w: QuadKey)
    requires forall k :: k in a ==> k in b
    requires Covers(a, w)
    ensures Covers(b, w)
  {
    var i :| 0 <= i < |a| && Prefix(a[i], w);
    CoversIntro(b, a[i], w);
  }

  /** Some word of `level` digits that extends `k`. */
  function Extend(k: QuadKey, level: nat): (w: QuadKey)
    requires |k| <= level
    ensures |w| == level && Prefix(k, w)
    decreases level - |k|
  {
    if |k| == level then k else Extend(Child(k, FIRST), level)
  }

  // ---- Canonical lists are unique and smallest ----

  /** Every word of `level` digits under `k` is accepted. */
  ghost predicate Full(keys: seq<QuadKey>, k: QuadKey, level: nat) {
    forall w: QuadKey :: |w| == level && Prefix(k, w) ==> Covers(keys, w)
  }

  /** In a list without complete quadruples, a fully accepted area lies under one key. */
  lemma {:induction false} FullHasPrefix(keys: seq<QuadKey>, k: QuadKey, level: nat) returns (p: QuadKey)
    requires NoQuad(keys) && AtMost(keys, level)
    requires |k| <= level && Full(keys, k, level)
    ensures p in keys && Prefix(p, k)
    decreases level - |k|
  {
    if |k| == level {
      assert Prefix(k, k) && Covers(keys, k);
      var i :| 0 <= i < |keys| && Prefix(keys[i], k);
      return keys[i];
    }
    assert !HasQuad(keys, k);
    var d := MissingChild(keys, k);
    var c := Child(k, d);
    forall w: QuadKey | |w| == level && Prefix(c, w)
      ensures Covers(keys, w)
    {
      ChildrenPartition(k, w);
    }
    p := FullHasPrefix(keys, c, level);
    assert p != c;
    assert p == c[..|p|] == k[..|p|];
  }

  /** A key of a list that means no more than `a` lies under a key of `a`, if `a` is canonical. */
  lemma UnderCanonical(a: seq<QuadKey>, b: seq<QuadKey>, k: QuadKey, level: nat) returns (p: QuadKey)
    requires NoQuad(a) && AtMost(a, level)
    requires SameCoverage(a, b, level)
    requires k in b
    ensures p in a && Prefix(p, k)
  {
    if level <= |k| {
      CoversIntro(b, k, k);
      assert Covers(a, k);
      var i :| 0 <= i < |a| && Prefix(a[i], k);
      return a[i];
    }
    forall w: QuadKey | |w| == level && Prefix(k, w)
      ensures Covers(a, w)
    {
      CoversIntro(b, k, w);
    }
    p := FullHasPrefix(a, k, level);
  }

  lemma PrefixFreeKeys(keys: seq<QuadKey>, a: QuadKey, b: QuadKey)
    requires PrefixFree(keys) && a in keys && b in keys && Prefix(a, b)
    ensures a == b
  {
    var i :| 0 <= i < |keys| && keys[i] == a;
    var j :| 0 <= j < |keys| && keys[j] == b;
  }

  /** Canonical lists with the same meaning hold the same keys. */
  lemma CanonicalUnique(a: seq<QuadKey>, b: seq<QuadKey>, level: nat)
    requires Canonical(a, level) && Canonical(b, level)
    requires SameCoverage(a, b, level)
    ensures multiset(a) == multiset(b)
  {
    forall k | k in a
      ensures k in b
    {
      CanonicalKeyShared(b, a, k, level);
    }
    forall k | k in b
      ensures k in a
    {
      CanonicalKeyShared(a, b, k, level);
    }
    PrefixFreeNoDup(a);
    PrefixFreeNoDup(b);
    NoDupMultiset(a);
    NoDupMultiset(b);
  }

  lemma CanonicalKeyShared(a: seq<QuadKey>, b: seq<QuadKey>, k: QuadKey, level: nat)
    requires Canonical(a, level) && Canonical(b, level)
    requires SameCoverage(a, b, level)
    requires k in b
    ensures k in a
  {
    var p := UnderCanonical(a, b, k, level);
    var q := UnderCanonical(b, a, p, level);
    PrefixTransitive(q, p, k);
    PrefixFreeKeys(b, q, k);
    assert p == k;
  }

  lemma PrefixFreeNoDup(keys: seq<QuadKey>)
    requires PrefixFree(keys)
    ensures NoDup(keys)
  {
    forall i, j | 0 <= i < j < |keys|
      ensures keys[i] != keys[j]
    {
      assert !Prefix(keys[i], keys[j]);
    }
  }

  /** Every key of `b` lies under some key of `a`. */
  ghost predicate KeysAbove(above: map<QuadKey, QuadKey>, a: seq<QuadKey>, b: seq<QuadKey>) {
    && above.Keys == Elements(b)
    && forall k :: k in above ==> above[k] in a && Prefix(above[k], k)
  }

  lemma {:induction false} FindKeysAbove(a: seq<QuadKey>, b: seq<QuadKey>, keys: seq<QuadKey>, level: nat)
    returns (above: map<QuadKey, QuadKey>)
    requires NoQuad(a) && AtMost(a, level)
    requires SameCoverage(a, b, level)
    requires forall k :: k in keys ==> k in b
    ensures KeysAbove(above, a, keys)
  {
    above := map[];
    if keys != [] {
      var last := keys[|keys| - 1];
      var rest := keys[..|keys| - 1];
      assert keys == rest + [last];
      above := FindKeysAbove(a, b, rest, level);
      var p := UnderCanonical(a, b, last, level);
      above := above[last := p];
    }
  }

  /** Every key of a canonical list lies above some key of a list with the same meaning. */
  lemma EveryKeyIsAbove(a: seq<QuadKey>, b: seq<QuadKey>, level: nat, above: map<QuadKey, QuadKey>, p: QuadKey)
    requires Canonical(a, level) && SameCoverage(a, b, level)
    requires KeysAbove(above, a, b)
    requires p in a
    ensures p in above.Values
  {
    AtMostMember(a, level, p);
    var w := Extend(p, level);
    CoversIntro(a, p, w);
    assert Covers(b, w);
    var i :| 0 <= i < |b| && Prefix(b[i], w);
    var q := above[b[i]];
    PrefixTransitive(q, b[i], w);
    PrefixesOfOneWord(q, p, w);
    if Prefix(p, q) {
      PrefixFreeKeys(a, p, q);
    } else {
      PrefixFreeKeys(a, q, p);
    }
  }

  lemma AtMostMember(keys: seq<QuadKey>, level: nat, k: QuadKey)
    requires AtMost(keys, level) && k in keys
    ensures |k| <= level
  {
    var i :| 0 <= i < |keys| && keys[i] == k;
  }

  /** No list with the meaning of a canonical list is shorter than it. */
  lemma CanonicalSmallest(a: seq<QuadKey>, b: seq<QuadKey>, level: nat)
    requires Canonical(a, level)
    requires SameCoverage(a, b, level)
    ensures |a| <= |b|
  {
    var above := FindKeysAbove(a, b, b, level);
    forall p | p in a
      ensures p in above.Values
    {
      EveryKeyIsAbove(a, b, level, above, p);
    }
    PrefixFreeNoDup(a);
    NoDupCard(a);
    SubsetCard(Elements(a), above.Values);
    ValuesCard(above);
    ElementsCard(b);
  }

  lemma {:induction false} SubsetCard<T>(a: set<T>, b: set<T>)
    requires a <= b
    ensures |a| <= |b|
  {
    assert b == a + (b - a);
  }

  lemma {:induction false} ValuesCard<K, V>(m: map<K, V>)
    ensures |m.Values| <= |m|
    decreases |m|
  {
    if k :| k in m {
      var r := m - {k};
      assert |r| < |m| by { assert r.Keys == m.Keys - {k}; }
      ValuesCard(r);
      assert m.Values <= r.Values + {m[k]} by {
        forall v | v in m.Values
          ensures v in r.Values + {m[k]}
        {
          var x :| x in m && m[x] == v;
          if x != k {
            assert x in r && r[x] == v;
          }
        }
      }
      SubsetCard(m.Values, r.Values + {m[k]});
    } else {
      assert m.Values == {};
    }
  }
}

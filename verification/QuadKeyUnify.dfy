/**
 The merge of sibling quadkeys into their parent (`QuadKeyTS::unifyQuadkeys2`).

 The function sorts the keys and then makes passes over the list. A pass looks at four
 neighbours at a time and replaces the four children of a tile by the tile. This module
 gives the pass as a function on lists, proves what every pass keeps, and proves that the
 loop computes the canonical list of `QuadKeyWords`.
 */
module QuadKeyUnify {
  import opened QuadKeyWords
  import opened Sorting

  // ---- The alphabetical order of keys ----

  predicate LexLeq(a: QuadKey, b: QuadKey) {
    a == [] || (b != [] && (a[0] < b[0] || (a[0] == b[0] && LexLeq(a[1..], b[1..]))))
  }

  predicate ShorterOrEqual(a: QuadKey, b: QuadKey) {
    |a| <= |b|
  }

  lemma {:induction false} LexTotal(a: QuadKey, b: QuadKey)
    ensures LexLeq(a, b) || LexLeq(b, a)
  {
    if a != [] && b != [] {
      LexTotal(a[1..], b[1..]);
    }
  }

  lemma {:induction false} LexTransitive(a: QuadKey, b: QuadKey, c: QuadKey)
    requires LexLeq(a, b) && LexLeq(b, c)
    ensures LexLeq(a, c)
  {
    if a != [] && a[0] == b[0] && b[0] == c[0] {
      LexTransitive(a[1..], b[1..], c[1..]);
    }
  }

  lemma LexIsTotalPreorder()
    ensures TotalPreorder(LexLeq)
  {
    forall a: QuadKey, b: QuadKey
      ensures LexLeq(a, b) || LexLeq(b, a)
    {
      LexTotal(a, b);
    }
    forall a: QuadKey, b: QuadKey, c: QuadKey | LexLeq(a, b) && LexLeq(b, c)
      ensures LexLeq(a, c)
    {
      LexTransitive(a, b, c);
    }
  }

  // ---- Ordered antichains ----

  /** The keys differ at some digit, and `a` has the smaller one there. */
  predicate Apart(a: QuadKey, b: QuadKey) {
    a != [] && b != [] && (a[0] < b[0] || (a[0] == b[0] && Apart(a[1..], b[1..])))
  }

  /** Alphabetical order and no key a prefix of another, in one relation. */
  ghost predicate OrderedAntichain(s: seq<QuadKey>) {
    forall i, j :: 0 <= i < j < |s| ==> Apart(s[i], s[j])
  }

  lemma {:induction false} LexApart(a: QuadKey, b: QuadKey)
    requires |a| == |b| && LexLeq(a, b) && a != b
    ensures Apart(a, b)
  {
    if a[0] == b[0] {
      assert a == [a[0]] + a[1..] && b == [b[0]] + b[1..];
      LexApart(a[1..], b[1..]);
    }
  }

  lemma {:induction false} ApartNotPrefix(a: QuadKey, b: QuadKey)
    requires Apart(a, b)
    ensures !Prefix(a, b) && !Prefix(b, a)
  {
    if a[0] == b[0] {
      ApartNotPrefix(a[1..], b[1..]);
    }
  }

  lemma {:induction false} ApartAsymmetric(a: QuadKey, b: QuadKey)
    requires Apart(a, b)
    ensures !Apart(b, a)
  {
    if a[0] == b[0] {
      ApartAsymmetric(a[1..], b[1..]);
    }
  }

  lemma AntichainPrefixFree(s: seq<QuadKey>)
    requires OrderedAntichain(s)
    ensures PrefixFree(s)
  {
    forall i, j | 0 <= i < |s| && 0 <= j < |s| && i != j
      ensures !Prefix(s[i], s[j])
    {
      if i < j {
        ApartNotPrefix(s[i], s[j]);
      } else {
        ApartNotPrefix(s[j], s[i]);
      }
    }
  }

  /** Nothing fits between a tile's first child and what lies before it. */
  lemma {:induction false} ApartFromFirstChild(x: QuadKey, m: QuadKey)
    requires Apart(x, Child(m, FIRST))
    ensures Apart(x, m)
  {
    if m != [] && x[0] == m[0] {
      assert Child(m, FIRST)[1..] == Child(m[1..], FIRST);
      ApartFromFirstChild(x[1..], m[1..]);
    }
  }

  lemma {:induction false} ApartFromLastChild(m: QuadKey, y: QuadKey)
    requires Apart(Child(m, LAST), y)
    ensures Apart(m, y)
  {
    if m != [] && m[0] == y[0] {
      assert Child(m, LAST)[1..] == Child(m[1..], LAST);
      ApartFromLastChild(m[1..], y[1..]);
    }
  }

  predicate Consecutive(d: Digit, e: Digit) {
    d as int + 1 == e as int
  }

  lemma {:induction false} SiblingsApart(m: QuadKey, d: Digit, e: Digit)
    requires d < e
    ensures Apart(Child(m, d), Child(m, e))
  {
    if m != [] {
      assert Child(m, d)[1..] == Child(m[1..], d) && Child(m, e)[1..] == Child(m[1..], e);
      SiblingsApart(m[1..], d, e);
    }
  }

  /** No key lies strictly between two consecutive siblings. */
  lemma {:induction false} NothingBetweenSiblings(m: QuadKey, d: Digit, e: Digit, x: QuadKey)
    requires Consecutive(d, e)
    requires Apart(Child(m, d), x) && Apart(x, Child(m, e))
    ensures false
  {
    if m != [] {
      assert Child(m, d)[1..] == Child(m[1..], d) && Child(m, e)[1..] == Child(m[1..], e);
      NothingBetweenSiblings(m[1..], d, e, x[1..]);
    }
  }

  lemma SiblingsAdjacent(s: seq<QuadKey>, m: QuadKey, d: Digit, e: Digit, i: nat)
    requires OrderedAntichain(s) && Consecutive(d, e)
    requires i < |s| && s[i] == Child(m, d) && Child(m, e) in s
    ensures i + 1 < |s| && s[i + 1] == Child(m, e)
  {
    var j :| 0 <= j < |s| && s[j] == Child(m, e);
    SiblingsApart(m, d, e);
    assert d != e && Child(m, d)[|m|] != Child(m, e)[|m|];
    if j < i {
      ApartAsymmetric(s[j], s[i]);
    }
    if i + 1 < j {
      NothingBetweenSiblings(m, d, e, s[i + 1]);
    }
  }

  predicate NonEmptyKeys(s: seq<QuadKey>) {
    forall i :: 0 <= i < |s| ==> s[i] != []
  }

  /** The four children of one tile, in order, from position `i` on. */
  predicate QuadAt(s: seq<QuadKey>, i: nat) {
    && i + 4 <= |s| && s[i] != []
    && s[i] == Child(Parent(s[i]), '0') && s[i + 1] == Child(Parent(s[i]), '1')
    && s[i + 2] == Child(Parent(s[i]), '2') && s[i + 3] == Child(Parent(s[i]), '3')
  }

  lemma QuadAtHasQuad(s: seq<QuadKey>, i: nat)
    requires QuadAt(s, i)
    ensures HasQuad(s, Parent(s[i]))
  {
  }

  /** In an ordered antichain the four children of a tile stand next to each other. */
  lemma QuadAdjacent(s: seq<QuadKey>, m: QuadKey, i: nat)
    requires OrderedAntichain(s) && HasQuad(s, m)
    requires i < |s| && s[i] == Child(m, '0')
    ensures QuadAt(s, i) && Parent(s[i]) == m
  {
    SiblingsAdjacent(s, m, '0', '1', i);
    SiblingsAdjacent(s, m, '1', '2', i + 1);
    SiblingsAdjacent(s, m, '2', '3', i + 2);
  }

  // ---- One pass ----

  /** A pass from left to right, from position `i` on. */
  function PassFrom(s: seq<QuadKey>, i: nat): (r: seq<QuadKey>)
    requires i <= |s|
    ensures |r| <= |s| - i
    decreases |s| - i
  {
    if i == |s| then []
    else if QuadAt(s, i) then [Parent(s[i])] + PassFrom(s, i + 4)
    else [s[i]] + PassFrom(s, i + 1)
  }

  function Pass(s: seq<QuadKey>): seq<QuadKey> {
    PassFrom(s, 0)
  }

  /** Where a key of the new list comes from. */
  lemma {:induction false} PassOrigin(s: seq<QuadKey>, i: nat, k: QuadKey) returns (j: nat)
    requires i <= |s| && k in PassFrom(s, i)
    ensures i <= j < |s| && (s[j] == k || (QuadAt(s, j) && k == Parent(s[j])))
    decreases |s| - i
  {
    if QuadAt(s, i) {
      if k == Parent(s[i]) {
        j := i;
      } else {
        j := PassOrigin(s, i + 4, k);
      }
    } else if k == s[i] {
      j := i;
    } else {
      j := PassOrigin(s, i + 1, k);
    }
  }

  /** What lies behind a key still does after a pass over the rest. */
  lemma PassStaysBehind(h: QuadKey, s: seq<QuadKey>, i: nat)
    requires i <= |s|
    requires forall j :: i <= j < |s| ==> Apart(h, s[j])
    ensures forall n :: 0 <= n < |PassFrom(s, i)| ==> Apart(h, PassFrom(s, i)[n])
  {
    var rest := PassFrom(s, i);
    forall n | 0 <= n < |rest|
      ensures Apart(h, rest[n])
    {
      var j := PassOrigin(s, i, rest[n]);
      if s[j] != rest[n] {
        ApartFromFirstChild(h, rest[n]);
      }
    }
  }

  /** The head of the new list lies before everything that is still to be read. */
  lemma HeadApart(s: seq<QuadKey>, i: nat)
    requires OrderedAntichain(s) && i < |s|
    ensures QuadAt(s, i) ==> forall j :: i + 4 <= j < |s| ==> Apart(Parent(s[i]), s[j])
    ensures forall j :: i + 1 <= j < |s| ==> Apart(s[i], s[j])
  {
    if QuadAt(s, i) {
      forall j | i + 4 <= j < |s|
        ensures Apart(Parent(s[i]), s[j])
      {
        assert Apart(s[i + 3], s[j]);
        ApartFromLastChild(Parent(s[i]), s[j]);
      }
    }
  }

  /** A pass keeps the alphabetical order and leaves no key a prefix of another. */
  lemma {:induction false} PassKeepsAntichain(s: seq<QuadKey>, i: nat)
    requires OrderedAntichain(s) && i <= |s|
    ensures OrderedAntichain(PassFrom(s, i))
    decreases |s| - i
  {
    if i < |s| {
      HeadApart(s, i);
      if QuadAt(s, i) {
        PassKeepsAntichain(s, i + 4);
        PassStaysBehind(Parent(s[i]), s, i + 4);
      } else {
        PassKeepsAntichain(s, i + 1);
        PassStaysBehind(s[i], s, i + 1);
      }
    }
  }

  /** A complete quadruple is merged by the next pass. */
  lemma PassMergesQuad(s: seq<QuadKey>, m: QuadKey)
    requires OrderedAntichain(s) && HasQuad(s, m)
    ensures m in Pass(s)
  {
    var i :| 0 <= i < |s| && s[i] == Child(m, '0');
    QuadAdjacent(s, m, i);
    PassMergesAt(s, 0, i);
  }

  lemma {:induction false} PassMergesAt(s: seq<QuadKey>, i: nat, at: nat)
    requires i <= at && QuadAt(s, at)
    ensures Parent(s[at]) in PassFrom(s, i)
    decreases at - i
  {
    if i < at {
      if QuadAt(s, i) {
        PassMergesAt(s, i + 4, at);
      } else {
        PassMergesAt(s, i + 1, at);
      }
    }
  }

  /** Some key from position `i` on is a prefix of `w`. */
  predicate CoversFrom(s: seq<QuadKey>, i: nat, w: QuadKey) {
    exists j :: i <= j < |s| && Prefix(s[j], w)
  }

  /** A pass changes no answer on words longer than every key it merges. */
  lemma {:induction false} PassFromKeepsCoverage(s: seq<QuadKey>, i: nat, level: nat, w: QuadKey)
    requires i <= |s| && AtMost(s, level) && level <= |w|
    ensures Covers(PassFrom(s, i), w) <==> CoversFrom(s, i, w)
    decreases |s| - i
  {
    if i < |s| {
      if QuadAt(s, i) {
        PassFromKeepsCoverage(s, i + 4, level, w);
        CoversCons(Parent(s[i]), PassFrom(s, i + 4), w);
        QuadCoverage(s, i, w);
      } else {
        PassFromKeepsCoverage(s, i + 1, level, w);
        CoversCons(s[i], PassFrom(s, i + 1), w);
        CoversFromStep(s, i, w);
      }
    }
  }

  lemma CoversFromStep(s: seq<QuadKey>, i: nat, w: QuadKey)
    requires i < |s|
    ensures CoversFrom(s, i, w) <==> Prefix(s[i], w) || CoversFrom(s, i + 1, w)
  {
  }

  lemma PassKeepsCoverage(s: seq<QuadKey>, level: nat, w: QuadKey)
    requires AtMost(s, level) && level <= |w|
    ensures Covers(Pass(s), w) <==> Covers(s, w)
  {
    PassFromKeepsCoverage(s, 0, level, w);
  }

  lemma CoversCons(k: QuadKey, rest: seq<QuadKey>, w: QuadKey)
    ensures Covers([k] + rest, w) <==> Prefix(k, w) || Covers(rest, w)
  {
    var all := [k] + rest;
    assert all[0] == k;
    assert forall j :: 0 <= j < |rest| ==> all[j + 1] == rest[j];
    if Covers(rest, w) {
      var j :| 0 <= j < |rest| && Prefix(rest[j], w);
      assert Prefix(all[j + 1], w);
    }
  }

  /** The four children together mean what the parent means. */
  lemma QuadCoverage(s: seq<QuadKey>, i: nat, w: QuadKey)
    requires QuadAt(s, i) && |s[i]| <= |w|
    ensures CoversFrom(s, i, w) <==> Prefix(Parent(s[i]), w) || CoversFrom(s, i + 4, w)
  {
  }

  /** A pass that shortens the list merges somewhere. */
  lemma {:induction false} MergeFindsQuad(s: seq<QuadKey>, i: nat) returns (j: nat)
    requires i <= |s| && |PassFrom(s, i)| < |s| - i
    ensures QuadAt(s, j) && Parent(s[j]) in PassFrom(s, i)
    decreases |s| - i
  {
    if QuadAt(s, i) {
      j := i;
    } else {
      j := MergeFindsQuad(s, i + 1);
    }
  }

  lemma {:induction false} FullLengthFrom(s: seq<QuadKey>, i: nat)
    requires i <= |s| && |PassFrom(s, i)| == |s| - i
    ensures PassFrom(s, i) == s[i..]
    decreases |s| - i
  {
    if i < |s| {
      FullLengthFrom(s, i + 1);
    }
  }

  /** A pass that does not shorten the list does not change it. */
  lemma SameLengthSameList(s: seq<QuadKey>)
    ensures Pass(s) != s <==> |Pass(s)| < |s|
  {
    if |Pass(s)| == |s| {
      FullLengthFrom(s, 0);
    }
  }

  // ---- Repeated passes ----

  /** Every complete quadruple consists of keys of exactly `n` digits, and no key is shorter. */
  ghost predicate QuadsAt(s: seq<QuadKey>, n: int) {
    && (forall i :: 0 <= i < |s| ==> n <= |s[i]|)
    && (forall m: QuadKey {:trigger HasQuad(s, m)} :: HasQuad(s, m) ==> |m| + 1 == n)
  }

  lemma MergedKeyLength(s: seq<QuadKey>, n: int, k: QuadKey)
    requires QuadsAt(s, n) && k in Pass(s)
    ensures n - 1 <= |k| && (k in s || |k| == n - 1)
  {
    var j := PassOrigin(s, 0, k);
    assert s[j] in s;
    if s[j] != k {
      QuadAtHasQuad(s, j);
    }
  }

  /** After a pass the remaining complete quadruples are one digit shorter. */
  lemma PassLiftsQuads(s: seq<QuadKey>, n: int)
    requires OrderedAntichain(s) && QuadsAt(s, n)
    ensures QuadsAt(Pass(s), n - 1)
  {
    forall i | 0 <= i < |Pass(s)|
      ensures n - 1 <= |Pass(s)[i]|
    {
      MergedKeyLength(s, n, Pass(s)[i]);
    }
    forall m: QuadKey | HasQuad(Pass(s), m)
      ensures |m| + 1 == n - 1
    {
      RemainingQuad(s, n, m);
    }
  }

  lemma RemainingQuad(s: seq<QuadKey>, n: int, m: QuadKey)
    requires OrderedAntichain(s) && QuadsAt(s, n) && HasQuad(Pass(s), m)
    ensures |m| + 1 == n - 1
  {
    if HasQuad(s, m) {
      QuadNotLeft(s, m);
    } else {
      var d := MissingChild(s, m);
      ChildOfQuad(Pass(s), m, d);
      MergedKeyLength(s, n, Child(m, d));
    }
  }

  /** A quadruple of the old list is not a quadruple of the new one. */
  lemma QuadNotLeft(s: seq<QuadKey>, m: QuadKey)
    requires OrderedAntichain(s) && HasQuad(s, m)
    ensures !HasQuad(Pass(s), m)
  {
    if HasQuad(Pass(s), m) {
      PassMergesQuad(s, m);
      PassKeepsAntichain(s, 0);
      AntichainPrefixFree(Pass(s));
      PrefixFreeKeys(Pass(s), m, Child(m, '0'));
    }
  }

  /** A pass that merges nothing found nothing to merge. */
  lemma NoMergeNoQuad(s: seq<QuadKey>)
    requires OrderedAntichain(s) && Pass(s) == s
    ensures NoQuad(s)
  {
    forall m: QuadKey
      ensures !HasQuad(s, m)
    {
      if HasQuad(s, m) {
        QuadNotLeft(s, m);
      }
    }
  }

  /** What every round of passes starts from when `n` passes are left. */
  ghost predicate RoundInvariant(s: seq<QuadKey>, n: int) {
    OrderedAntichain(s) && QuadsAt(s, n)
  }

  /** The list after `v` passes. */
  ghost function Stage(s: seq<QuadKey>, v: nat): seq<QuadKey> {
    if v == 0 then s else Pass(Stage(s, v - 1))
  }

  lemma {:induction false} StageInvariant(s: seq<QuadKey>, v: nat, level: nat)
    requires RoundInvariant(s, level) && v <= level
    ensures RoundInvariant(Stage(s, v), level - v)
    ensures |Stage(s, v)| <= |s|
  {
    if v > 0 {
      StageInvariant(s, v - 1, level);
      var n := level - (v - 1);
      RoundStep(Stage(s, v - 1), n);
      assert n - 1 == level - v;
    }
  }

  lemma RoundStep(s: seq<QuadKey>, n: int)
    requires RoundInvariant(s, n)
    ensures RoundInvariant(Pass(s), n - 1)
  {
    PassKeepsAntichain(s, 0);
    PassLiftsQuads(s, n);
  }

  /** A pass that changes nothing is followed by others that change nothing. */
  lemma {:induction false} StageStays(s: seq<QuadKey>, v: nat, n: nat)
    requires v <= n && Pass(Stage(s, v)) == Stage(s, v)
    ensures Stage(s, n) == Stage(s, v)
  {
    if v < n {
      StageStays(s, v, n - 1);
    }
  }

  /** At most `n` passes, stopping at the first one that merges nothing. */
  ghost function Rounds(s: seq<QuadKey>, n: nat): seq<QuadKey>
    decreases n
  {
    if n == 0 || Pass(s) == s then s else Rounds(Pass(s), n - 1)
  }

  lemma PassKeepsAtMost(s: seq<QuadKey>, level: nat)
    requires AtMost(s, level)
    ensures AtMost(Pass(s), level)
  {
    forall i | 0 <= i < |Pass(s)|
      ensures |Pass(s)[i]| <= level
    {
      var j := PassOrigin(s, 0, Pass(s)[i]);
    }
  }

  /** `n` passes are enough: nothing is left to merge. */
  lemma {:induction false} RoundsCanonical(s: seq<QuadKey>, n: nat, level: nat)
    requires RoundInvariant(s, n) && AtMost(s, level)
    ensures Canonical(Rounds(s, n), level)
    decreases n
  {
    AntichainPrefixFree(s);
    if n > 0 {
      if Pass(s) == s {
        NoMergeNoQuad(s);
      } else {
        RoundStep(s, n);
        PassKeepsAtMost(s, level);
        RoundsCanonical(Pass(s), n - 1, level);
      }
    }
  }

  /** The passes together keep the order, and leave no key a prefix of another. */
  lemma {:induction false} RoundsKeepAntichain(s: seq<QuadKey>, n: nat)
    requires OrderedAntichain(s)
    ensures OrderedAntichain(Rounds(s, n))
    decreases n
  {
    if n > 0 && Pass(s) != s {
      PassKeepsAntichain(s, 0);
      RoundsKeepAntichain(Pass(s), n - 1);
    }
  }

  /** Ordered lists of the same keys begin with the same key. */
  lemma SameFirst(a: seq<QuadKey>, b: seq<QuadKey>)
    requires OrderedAntichain(a) && OrderedAntichain(b) && multiset(a) == multiset(b) && a != [] && b != []
    ensures a[0] == b[0]
  {
    assert a[0] in multiset(b) && b[0] in multiset(a);
    var i :| 0 <= i < |b| && b[i] == a[0];
    var j :| 0 <= j < |a| && a[j] == b[0];
    if i > 0 && j > 0 {
      ApartAsymmetric(a[0], b[0]);
    }
  }

  /** The order leaves one list for a set of keys. */
  lemma {:induction false} AntichainDetermined(a: seq<QuadKey>, b: seq<QuadKey>)
    requires OrderedAntichain(a) && OrderedAntichain(b) && multiset(a) == multiset(b)
    ensures a == b
  {
    assert |a| == |multiset(a)| == |multiset(b)| == |b|;
    if a != [] {
      SameFirst(a, b);
      assert a == [a[0]] + a[1..] && b == [b[0]] + b[1..];
      assert multiset(a[1..]) == multiset(a) - multiset{a[0]};
      assert multiset(b[1..]) == multiset(b) - multiset{b[0]};
      AntichainDetermined(a[1..], b[1..]);
    }
  }

  /** The passes together change no answer. */
  lemma {:induction false} RoundsKeepCoverage(s: seq<QuadKey>, n: nat, level: nat, w: QuadKey)
    requires AtMost(s, level) && level <= |w|
    ensures Covers(Rounds(s, n), w) == Covers(s, w)
    decreases n
  {
    if n > 0 && Pass(s) != s {
      PassKeepsCoverage(s, level, w);
      PassKeepsAtMost(s, level);
      RoundsKeepCoverage(Pass(s), n - 1, level, w);
    }
  }
}

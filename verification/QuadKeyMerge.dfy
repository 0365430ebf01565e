/** The merge loop of `QuadKeyTS::unifyQuadkeys2` and its out-of-range reads. */
module QuadKeyMerge {
  import opened MachineWords
  import opened QuadKeyWords
  import opened Sequences
  import opened QuadKeyUnify
  import opened Sorting

  /** `vector::at` past the end throws `std::out_of_range`. */
  datatype Outcome<+T> = Done(value: T) | OutOfRange

  // ---- unifyQuadkeys2 ----

  /** `size - 4` as an unsigned 64-bit number. */
  function SizeMinusFour(size: nat): nat {
    if size < 4 then size + TWO_64 - 4 else size - 4
  }

  datatype Probe = Match | Mismatch | PastEnd

  /** `main_part == keys.at(i).substr(...) && keys.at(i).back() == d` */
  function ProbeAt(keys: seq<QuadKey>, i: nat, mainPart: QuadKey, d: Digit): Probe
    requires NonEmptyKeys(keys)
  {
    if |keys| <= i then PastEnd
    else if Parent(keys[i]) == mainPart && Last(keys[i]) == d then Match
    else Mismatch
  }

  /** The condition of the merge, evaluated from left to right. */
  function ProbeQuad(keys: seq<QuadKey>, i: nat): Probe
    requires NonEmptyKeys(keys) && i < |keys|
  {
    var mainPart := Parent(keys[i]);
    if !(i <= SizeMinusFour(|keys|)) || Last(keys[i]) != '0' then Mismatch
    else if !ProbeAt(keys, i + 1, mainPart, '1').Match? then ProbeAt(keys, i + 1, mainPart, '1')
    else if !ProbeAt(keys, i + 2, mainPart, '2').Match? then ProbeAt(keys, i + 2, mainPart, '2')
    else ProbeAt(keys, i + 3, mainPart, '3')
  }

  /** The list ends in the first one, two or three children of a tile, from position `i` on. */
  predicate EndsInSiblings(keys: seq<QuadKey>, i: nat)
    requires NonEmptyKeys(keys) && i < |keys|
  {
    && |keys| - i <= 3
    && Last(keys[i]) == '0'
    && (i + 1 < |keys| ==> Parent(keys[i + 1]) == Parent(keys[i]) && Last(keys[i + 1]) == '1')
    && (i + 2 < |keys| ==> Parent(keys[i + 2]) == Parent(keys[i]) && Last(keys[i + 2]) == '2')
  }

  /** The lists on which the unsigned guard lets the merge condition read past the end. */
  predicate ReadsPastEnd(keys: seq<QuadKey>) {
    |keys| < 4 && NonEmptyKeys(keys) && exists i :: 0 <= i < |keys| && EndsInSiblings(keys, i)
  }

  /** The first `n` children of a tile. */
  function FirstChildren(p: QuadKey, n: nat): seq<QuadKey>
    requires n <= 3
  {
    [p + "0", p + "1", p + "2"][..n]
  }

  lemma EndsInChildren(keys: seq<QuadKey>, i: nat)
    requires NonEmptyKeys(keys) && i < |keys| <= i + 3
    ensures EndsInSiblings(keys, i) <==> keys[i..] == FirstChildren(Parent(keys[i]), |keys| - i)
  {
    var p, n := Parent(keys[i]), |keys| - i;
    var children := FirstChildren(p, n);
    assert Parent(p + "0") == p && Parent(p + "1") == p && Parent(p + "2") == p;
    assert forall j :: i <= j < |keys| ==> keys[j] == Parent(keys[j]) + [Last(keys[j])];
    assert keys[i..] == children <==> forall j :: 0 <= j < n ==> keys[i + j] == children[j];
    assert keys[i..] == children ==> keys[i] == children[0];
    assert keys[i..] == children && n > 1 ==> keys[i + 1] == children[1];
    assert keys[i..] == children && n > 2 ==> keys[i + 2] == children[2];
  }

  /** One to three keys, the last of which are the first one, two or three children of one tile. */
  lemma ReadsPastEndMeans(keys: seq<QuadKey>)
    requires NonEmptyKeys(keys)
    ensures ReadsPastEnd(keys)
       <==> |keys| <= 3 && exists n: nat, p: QuadKey ::
              0 < n <= |keys| && n <= 3 && keys[|keys| - n..] == FirstChildren(p, n)
  {
    hide EndsInSiblings, FirstChildren;
    if ReadsPastEnd(keys) {
      var i :| 0 <= i < |keys| && EndsInSiblings(keys, i);
      EndsInChildren(keys, i);
      assert |keys| - (|keys| - i) == i;
      assert keys[|keys| - (|keys| - i)..] == FirstChildren(Parent(keys[i]), |keys| - i);
    }
    if |keys| <= 3 {
      forall n: nat, p: QuadKey | 0 < n <= |keys| && n <= 3 && keys[|keys| - n..] == FirstChildren(p, n)
        ensures ReadsPastEnd(keys)
      {
        FirstChild(p, n, keys[|keys| - n..]);
        EndsInChildren(keys, |keys| - n);
      }
    }
  }

  lemma FirstChild(p: QuadKey, n: nat, keys: seq<QuadKey>)
    requires 1 <= n <= 3 && keys == FirstChildren(p, n)
    ensures |keys| > 0 && keys[0] != [] && Parent(keys[0]) == p
  {
    assert keys[0] == p + "0";
  }

  /** What the merge condition decides. */
  lemma ProbeQuadDecides(keys: seq<QuadKey>, i: nat)
    requires NonEmptyKeys(keys) && i < |keys| < TWO_64
    ensures ProbeQuad(keys, i).Match? <==> QuadAt(keys, i)
    ensures ProbeQuad(keys, i).PastEnd? <==> |keys| < 4 && EndsInSiblings(keys, i)
  {
  }

  /** The pass as the loop makes it: the keys so far, then the rest. */
  function PassOnto(keys: seq<QuadKey>, i: nat, vf: seq<QuadKey>): seq<QuadKey>
    requires i <= |keys|
    decreases |keys| - i
  {
    if i == |keys| then vf
    else if QuadAt(keys, i) then PassOnto(keys, i + 4, vf + [Parent(keys[i])])
    else PassOnto(keys, i + 1, vf + [keys[i]])
  }

  lemma {:induction false} PassOntoIsPass(keys: seq<QuadKey>, i: nat, vf: seq<QuadKey>)
    requires i <= |keys|
    ensures PassOnto(keys, i, vf) == vf + PassFrom(keys, i)
    decreases |keys| - i
  {
    if i < |keys| {
      var n := if QuadAt(keys, i) then 4 else 1;
      var k := if QuadAt(keys, i) then Parent(keys[i]) else keys[i];
      PassOntoIsPass(keys, i + n, vf + [k]);
      assert vf + [k] + PassFrom(keys, i + n) == vf + ([k] + PassFrom(keys, i + n));
    }
  }

  /** One pass of the loop over `quadKeys`; `vf` starts empty. */
  method MergePass(quadKeys: seq<QuadKey>) returns (r: Outcome<seq<QuadKey>>, reductionOccurred: bool)
    requires NonEmptyKeys(quadKeys) && |quadKeys| < TWO_64
    ensures r.OutOfRange? <==> ReadsPastEnd(quadKeys)
    ensures r.Done? ==> r.value == Pass(quadKeys)
    ensures r.Done? ==> (reductionOccurred <==> Pass(quadKeys) != quadKeys)
  {
    var vf: seq<QuadKey> := [];
    reductionOccurred := false;
    var i := 0;
    PassOntoIsPass(quadKeys, 0, []);
    while i < |quadKeys|
      invariant 0 <= i <= |quadKeys|
      invariant Pass(quadKeys) == PassOnto(quadKeys, i, vf)
      invariant |vf| <= i && (reductionOccurred <==> |vf| < i)
      invariant |quadKeys| < 4 ==> forall j :: 0 <= j < i ==> !EndsInSiblings(quadKeys, j)
    {
      ProbeQuadDecides(quadKeys, i);
      var probe := ProbeQuad(quadKeys, i);
      if probe.PastEnd? {
        return OutOfRange, reductionOccurred;
      }
      if probe.Match? {
        vf := vf + [Parent(quadKeys[i])];
        i := i + 3;
        reductionOccurred := true;
      } else {
        vf := vf + [quadKeys[i]];
      }
      i := i + 1;
    }
    SameLengthSameList(quadKeys);
    r := Done(vf);
  }

  ghost predicate Distinct(keys: seq<QuadKey>, level: nat) {
    NoDup(keys) && forall i :: 0 <= i < |keys| ==> |keys[i]| == level
  }

  lemma PermutationNoDup(s: seq<QuadKey>, t: seq<QuadKey>)
    requires NoDup(s) && multiset(t) == multiset(s)
    ensures NoDup(t)
  {
    NoDupMultiset(s);
    forall i, j | 0 <= i < j < |t|
      ensures t[i] != t[j]
    {
      if t[i] == t[j] {
        TwiceInMultiset(t, i, j);
        assert false;
      }
    }
  }

  lemma PermutationDistinct(s: seq<QuadKey>, t: seq<QuadKey>, level: nat)
    requires Distinct(s, level) && multiset(t) == multiset(s)
    ensures Distinct(t, level)
  {
    SameMembers(t, s);
    PermutationNoDup(s, t);
    forall i | 0 <= i < |t|
      ensures |t[i]| == level
    {
      assert t[i] in s;
    }
  }

  /** Sorted distinct keys of one length satisfy what the passes start from. */
  lemma SortedDistinctRound(t: seq<QuadKey>, level: nat)
    requires Distinct(t, level) && SortedBy(LexLeq, t)
    ensures RoundInvariant(t, level) && AtMost(t, level)
  {
    forall i, j | 0 <= i < j < |t|
      ensures Apart(t[i], t[j])
    {
      LexApart(t[i], t[j]);
    }
    forall m: QuadKey | HasQuad(t, m)
      ensures |m| + 1 == level
    {
      var i :| 0 <= i < |t| && t[i] == Child(m, '0');
    }
  }

  lemma SortedKeysRound(s: seq<QuadKey>, level: nat)
    requires Distinct(s, level)
    ensures RoundInvariant(Sort(LexLeq, s), level) && AtMost(Sort(LexLeq, s), level)
    ensures multiset(Sort(LexLeq, s)) == multiset(s)
  {
    LexIsTotalPreorder();
    SortSorts(LexLeq, s);
    PermutationDistinct(s, Sort(LexLeq, s), level);
    SortedDistinctRound(Sort(LexLeq, s), level);
  }

  lemma SameMembers<T>(a: seq<T>, b: seq<T>)
    requires multiset(a) == multiset(b)
    ensures forall x :: x in a <==> x in b
    ensures |a| == |b|
  {
    assert forall x :: x in a <==> x in multiset(a);
    assert |multiset(a)| == |multiset(b)|;
  }

  lemma TwiceInMultiset<T>(s: seq<T>, i: nat, j: nat)
    requires i < j < |s| && s[i] == s[j]
    ensures multiset(s)[s[i]] >= 2
  {
    assert s == s[..j] + s[j..];
    assert s[..j][i] in multiset(s[..j]) && s[j..][0] in multiset(s[j..]);
  }

  /** The list the merge is after: sorted, then merged until nothing changes. */
  ghost function Merged(s: seq<QuadKey>, level: nat): seq<QuadKey>
  {
    Rounds(Sort(LexLeq, s), level)
  }

  /** The merged list is canonical and accepts what the input accepts. */
  lemma MergedCanonical(s: seq<QuadKey>, level: nat)
    requires Distinct(s, level)
    ensures Canonical(Merged(s, level), level)
    ensures SameCoverage(Merged(s, level), s, level)
  {
    SortedKeysRound(s, level);
    RoundsCanonical(Sort(LexLeq, s), level, level);
    MergedKeepsMeaning(s, level, level);
  }

  /** The list is ordered, canonical, and means what the keys `s` mean. */
  ghost predicate IsCanonicalFor(c: seq<QuadKey>, s: seq<QuadKey>, level: nat) {
    OrderedAntichain(c) && NoQuad(c) && AtMost(c, level) && SameCoverage(c, s, level)
  }

  /** Whatever meaning the keys have, one list is ordered, canonical and has it: the merged one. */
  lemma MergedIsTheCanonical(s: seq<QuadKey>, level: nat, c: seq<QuadKey>)
    requires Distinct(s, level)
    ensures IsCanonicalFor(c, s, level) <==> c == Merged(s, level)
  {
    var m := Merged(s, level);
    MergedCanonical(s, level);
    SortedKeysRound(s, level);
    RoundsKeepAntichain(Sort(LexLeq, s), level);
    if IsCanonicalFor(c, s, level) {
      AntichainPrefixFree(c);
      CanonicalUnique(c, m, level);
      AntichainDetermined(c, m);
    }
  }

  lemma SamePermutationSameCoverage(a: seq<QuadKey>, b: seq<QuadKey>, level: nat)
    requires multiset(a) == multiset(b)
    ensures SameCoverage(a, b, level)
  {
    SameMembers(a, b);
    forall w: QuadKey
      ensures Covers(a, w) == Covers(b, w)
    {
      if Covers(a, w) {
        CoverageOfSameKeys(a, b, w);
      }
      if Covers(b, w) {
        CoverageOfSameKeys(b, a, w);
      }
    }
  }

  /** Being canonical does not depend on the order of the list. */
  lemma CanonicalPermutation(a: seq<QuadKey>, b: seq<QuadKey>, level: nat)
    requires multiset(a) == multiset(b) && Canonical(a, level)
    ensures Canonical(b, level)
  {
    SameMembers(a, b);
    PrefixFreeNoDup(a);
    NoDupMultiset(a);
    forall i, j | 0 <= i < |b| && 0 <= j < |b| && i != j
      ensures !Prefix(b[i], b[j])
    {
      if b[i] == b[j] {
        TwiceInMultiset(b, if i < j then i else j, if i < j then j else i);
        assert false;
      }
      if Prefix(b[i], b[j]) {
        PrefixFreeKeys(a, b[i], b[j]);
      }
    }
    forall m: QuadKey
      ensures !HasQuad(b, m)
    {
      assert !HasQuad(a, m);
    }
    forall i | 0 <= i < |b|
      ensures |b[i]| <= level
    {
      AtMostMember(a, level, b[i]);
    }
  }

  /** The passes change no answer on words at least as long as every key. */
  lemma MergedKeepsMeaning(s: seq<QuadKey>, n: nat, level: nat)
    requires AtMost(s, n)
    ensures SameCoverage(Merged(s, level), s, n)
  {
    LexIsTotalPreorder();
    SortSorts(LexLeq, s);
    var t := Sort(LexLeq, s);
    SamePermutationSameCoverage(t, s, n);
    SameMembers(t, s);
    forall i | 0 <= i < |t|
      ensures |t[i]| <= n
    {
      AtMostMember(s, n, t[i]);
    }
    forall w: QuadKey | n <= |w|
      ensures Covers(Merged(s, level), w) == Covers(s, w)
    {
      RoundsKeepCoverage(t, level, n, w);
    }
  }

  lemma SortedMerged(input: seq<QuadKey>, level: nat)
    ensures var r := Sort(ShorterOrEqual, Merged(input, level));
            && multiset(r) == multiset(Merged(input, level))
            && SortedBy(ShorterOrEqual, r)
            && (forall n: nat {:trigger AtMost(input, n)} :: AtMost(input, n) ==> SameCoverage(r, input, n))
            && (Distinct(input, level) ==> Canonical(r, level))
  {
    var m := Merged(input, level);
    SortSorts(ShorterOrEqual, m);
    var r := Sort(ShorterOrEqual, m);
    forall n: nat | AtMost(input, n)
      ensures SameCoverage(r, input, n)
    {
      MergedKeepsMeaning(input, n, level);
      SamePermutationSameCoverage(r, m, n);
    }
    if Distinct(input, level) {
      MergedCanonical(input, level);
      CanonicalPermutation(m, r, level);
    }
  }

  /** No pass takes the last digit of an empty key. */
  ghost predicate Readable(sorted: seq<QuadKey>, level: nat) {
    forall v: nat :: v < level ==> NonEmptyKeys(Stage(sorted, v))
  }

  /** The last of the passes finds nothing to merge. */
  ghost predicate Settles(sorted: seq<QuadKey>, level: nat) {
    0 < level && Stage(sorted, level) == Stage(sorted, level - 1)
  }

  /** A pass shortens keys by one digit at most. */
  lemma {:induction false} StageKeyLength(sorted: seq<QuadKey>, v: nat, n: int)
    requires forall i :: 0 <= i < |sorted| ==> n <= |sorted[i]|
    ensures forall i :: 0 <= i < |Stage(sorted, v)| ==> n - v <= |Stage(sorted, v)[i]|
  {
    if v > 0 {
      StageKeyLength(sorted, v - 1, n);
      var before := Stage(sorted, v - 1);
      forall i | 0 <= i < |Pass(before)|
        ensures n - v <= |Pass(before)[i]|
      {
        var j := PassOrigin(before, 0, Pass(before)[i]);
      }
    }
  }

  /** Keys of at least as many digits as there are passes can be read by all of them. */
  lemma LongKeysReadable(keys: seq<QuadKey>, level: nat)
    requires forall i :: 0 <= i < |keys| ==> level <= |keys[i]|
    ensures Readable(Sort(LexLeq, keys), level)
  {
    LexIsTotalPreorder();
    SortSorts(LexLeq, keys);
    var sorted := Sort(LexLeq, keys);
    SameMembers(sorted, keys);
    forall i | 0 <= i < |sorted|
      ensures level <= |sorted[i]|
    {
      assert sorted[i] in keys;
    }
    forall v: nat | v < level
      ensures NonEmptyKeys(Stage(sorted, v))
    {
      StageKeyLength(sorted, v, level);
    }
  }

  /** If every pass merged something, the last list holds the empty key, or there were no passes. */
  lemma {:induction false} NoPassLeft(sorted: seq<QuadKey>, level: nat)
    requires RoundInvariant(sorted, level) && AtMost(sorted, level)
    requires !Settles(sorted, level)
    ensures !ReadsPastEnd(Stage(sorted, level))
  {
    if level == 0 {
      if sorted != [] {
        assert |sorted[0]| == 0;
      }
    } else {
      StageInvariant(sorted, level - 1, level);
      MergeShortens(Stage(sorted, level - 1), 1);
    }
  }

  lemma PassNotLonger(keys: seq<QuadKey>)
    ensures |Pass(keys)| <= |keys|
  {
  }

  /** A pass that changes nothing gives the last list. */
  lemma LastStage(sorted: seq<QuadKey>, v: nat, level: nat)
    requires v < level && Pass(Stage(sorted, v)) == Stage(sorted, v)
    ensures Settles(sorted, level) && Rounds(sorted, level) == Stage(sorted, v)
  {
    StageStays(sorted, v, level);
    StageStays(sorted, v, level - 1);
    StageZero(sorted, level);
  }

  /** The loop over the passes. The list that `vf` was moved out of is taken to be empty. */
  method MergePasses(sorted: seq<QuadKey>, levelOfDetail: nat) returns (r: Outcome<seq<QuadKey>>)
    requires Readable(sorted, levelOfDetail) && |sorted| < TWO_64
    ensures r.OutOfRange? <==> Settles(sorted, levelOfDetail) && ReadsPastEnd(Rounds(sorted, levelOfDetail))
    ensures r.Done? ==> r.value == Rounds(sorted, levelOfDetail)
  {
    hide NonEmptyKeys, EndsInSiblings, Rounds, Pass;
    var keys := sorted;
    var v := 0;
    StageZero(sorted, levelOfDetail);
    while v < levelOfDetail
      invariant 0 <= v <= levelOfDetail
      invariant keys == Stage(sorted, v) && |keys| <= |sorted|
      invariant 0 < v ==> Stage(sorted, v) != Stage(sorted, v - 1)
    {
      var pass, reductionOccurred := MergePass(keys);
      if pass.OutOfRange? {
        ShortListUnchanged(keys);
        LastStage(sorted, v, levelOfDetail);
        return OutOfRange;
      }
      if !reductionOccurred {
        LastStage(sorted, v, levelOfDetail);
        return Done(keys);
      }
      PassNotLonger(keys);
      keys := pass.value;
      v := v + 1;
    }
    r := Done(keys);
  }

  /**
   `unifyQuadkeys2` on any list of keys that the passes can read. What `LatLonToQuadKeyRange`
   returns are distinct keys of one length; for these the result is canonical, and the
   reads go past the end exactly when the one ordered canonical list with the meaning of the
   input is a short one that ends in siblings.
   */
  method UnifyQuadkeys2(quadKeys: seq<QuadKey>, levelOfDetail: nat) returns (r: Outcome<seq<QuadKey>>)
    requires Readable(Sort(LexLeq, quadKeys), levelOfDetail) && |quadKeys| < TWO_64
    ensures r.OutOfRange? <==>
      Settles(Sort(LexLeq, quadKeys), levelOfDetail) && ReadsPastEnd(Merged(quadKeys, levelOfDetail))
    ensures r.Done? ==> multiset(r.value) == multiset(Merged(quadKeys, levelOfDetail))
    ensures r.Done? ==> forall i, j :: 0 <= i < j < |r.value| ==> |r.value[i]| <= |r.value[j]|
    ensures r.Done? ==> forall n: nat {:trigger AtMost(quadKeys, n)} ::
      AtMost(quadKeys, n) ==> SameCoverage(r.value, quadKeys, n)
    ensures Distinct(quadKeys, levelOfDetail) ==>
      (r.OutOfRange? <==> exists c :: IsCanonicalFor(c, quadKeys, levelOfDetail) && ReadsPastEnd(c))
    ensures Distinct(quadKeys, levelOfDetail) && r.Done? ==> Canonical(r.value, levelOfDetail)
  {
    LexIsTotalPreorder();
    SortSorts(LexLeq, quadKeys);
    SameMembers(Sort(LexLeq, quadKeys), quadKeys);
    r := MergePasses(Sort(LexLeq, quadKeys), levelOfDetail);
    if Distinct(quadKeys, levelOfDetail) {
      DistinctThrows(quadKeys, levelOfDetail);
    }
    if r.Done? {
      SortedMerged(quadKeys, levelOfDetail);
      r := Done(Sort(ShorterOrEqual, r.value));
    }
  }

  lemma DistinctThrows(s: seq<QuadKey>, level: nat)
    requires Distinct(s, level)
    ensures Settles(Sort(LexLeq, s), level) && ReadsPastEnd(Merged(s, level))
       <==> exists c :: IsCanonicalFor(c, s, level) && ReadsPastEnd(c)
  {
    hide Distinct, IsCanonicalFor, ReadsPastEnd, Settles, Stage, Rounds, Sort, RoundInvariant, AtMost;
    var m := Merged(s, level);
    forall c
      ensures IsCanonicalFor(c, s, level) <==> c == m
    {
      MergedIsTheCanonical(s, level, c);
    }
    SortedKeysRound(s, level);
    StageZero(Sort(LexLeq, s), level);
    if !Settles(Sort(LexLeq, s), level) {
      NoPassLeft(Sort(LexLeq, s), level);
    }
  }

  lemma StageZero(sorted: seq<QuadKey>, level: nat)
    ensures Rounds(sorted, level) == Stage(sorted, level)
  {
    RoundsIsStage(sorted, level, 0);
  }

  lemma {:induction false} RoundsIsStage(sorted: seq<QuadKey>, n: nat, v: nat)
    ensures Rounds(Stage(sorted, v), n) == Stage(sorted, v + n)
    decreases n
  {
    if n > 0 {
      if Pass(Stage(sorted, v)) == Stage(sorted, v) {
        StageStays(sorted, v, v + n);
      } else {
        RoundsIsStage(sorted, n - 1, v + 1);
        assert v + 1 + (n - 1) == v + n;
      }
    }
  }

  lemma ShortListUnchanged(keys: seq<QuadKey>)
    requires |keys| < 4
    ensures Pass(keys) == keys
  {
    SameLengthSameList(keys);
    if |Pass(keys)| < |keys| {
      var j := MergeFindsQuad(keys, 0);
    }
  }

  predicate HasLength(keys: seq<QuadKey>, n: nat) {
    exists i :: 0 <= i < |keys| && |keys[i]| == n
  }

  /** A merging pass leaves a key one digit shorter than any before. */
  lemma MergeShortens(keys: seq<QuadKey>, n: nat)
    requires 0 < n && QuadsAt(keys, n) && Pass(keys) != keys
    ensures HasLength(Pass(keys), n - 1)
  {
    SameLengthSameList(keys);
    var j := MergeFindsQuad(keys, 0);
    QuadAtHasQuad(keys, j);
    var i :| 0 <= i < |Pass(keys)| && Pass(keys)[i] == Parent(keys[j]);
    assert |Pass(keys)[i]| == n - 1;
  }

  // ---- What the merged list is ----

  /** Two inputs that accept the same words are merged to the same list. */
  lemma MergedDependsOnlyOnMeaning(s: seq<QuadKey>, t: seq<QuadKey>, level: nat)
    requires Distinct(s, level) && Distinct(t, level) && SameCoverage(s, t, level)
    ensures Merged(s, level) == Merged(t, level)
  {
    MergedIsTheCanonical(s, level, Merged(s, level));
    MergedIsTheCanonical(t, level, Merged(s, level));
  }

  /** No list of keys, of whatever lengths, says the same with fewer keys. */
  lemma MergedSmallest(s: seq<QuadKey>, b: seq<QuadKey>, level: nat)
    requires Distinct(s, level) && SameCoverage(s, b, level)
    ensures |Merged(s, level)| <= |b|
  {
    MergedCanonical(s, level);
    CanonicalSmallest(Merged(s, level), b, level);
  }

  /** An area of one tile in the top left corner of its parent makes the merge read past the end. */
  lemma SingleTileReadsPastEnd(k: QuadKey)
    requires k != [] && Last(k) == '0'
    ensures Distinct([k], |k|) && ReadsPastEnd(Merged([k], |k|))
  {
    assert Sort(LexLeq, [k]) == Insert(LexLeq, k, Sort(LexLeq, [k][1..])) == [k];
    ShortListUnchanged([k]);
    assert EndsInSiblings([k], 0);
  }
}

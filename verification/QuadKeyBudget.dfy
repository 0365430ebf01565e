/**
 The size of the filter text and the bound `checkdim` enforces on it.

 The size is accumulated in a 32-bit `int`, so the figure the code compares with the bound
 is the true figure wrapped to 32 bits.
 */
module QuadKeyBudget {
  import opened QuadKeyWords
  import opened Sequences
  import opened QuadKeyDedup

  const MAX_LENGTH: int := 100000

  /** Two's complement wrap-around of a 32-bit `int`. */
  function Wrap32(n: int): int {
    (n + 0x8000_0000) % 0x1_0000_0000 - 0x8000_0000
  }

  /** Which multiple of 2^32 the wrap-around removes. */
  function Block(n: int): int {
    (n + 0x8000_0000) / 0x1_0000_0000
  }

  /** Every key costs its own digits and 21 characters around them. */
  function Weight(keys: seq<QuadKey>): nat {
    if keys == [] then 0 else |keys[0]| + 21 + Weight(keys[1..])
  }

  /** `std::accumulate` with an `int` accumulator. */
  function Accumulate(keys: seq<QuadKey>, sum: int): int
    decreases |keys|
  {
    if keys == [] then sum else Accumulate(keys[1..], Wrap32(sum + |keys[0]| + 21))
  }

  /** The figure the code compares with the bound. */
  function Figure(keys: seq<QuadKey>): int {
    Wrap32(Accumulate(keys, -4) + 180)
  }

  /** The figure without wrap-around. */
  function TrueFigure(keys: seq<QuadKey>): int {
    Weight(keys) - 4 + 180
  }

  lemma WrapAdd(n: int, a: int)
    ensures Wrap32(Wrap32(n) + a) == Wrap32(n + a)
  {
  }

  lemma {:induction false} AccumulateWraps(keys: seq<QuadKey>, sum: int)
    ensures Wrap32(Accumulate(keys, sum)) == Wrap32(sum + Weight(keys))
    decreases |keys|
  {
    if keys != [] {
      var next := sum + |keys[0]| + 21;
      AccumulateWraps(keys[1..], Wrap32(next));
      WrapAdd(next, Weight(keys[1..]));
    }
  }

  /** The compared figure is the true one, wrapped once. */
  lemma FigureWraps(keys: seq<QuadKey>)
    ensures Figure(keys) == Wrap32(TrueFigure(keys))
    ensures Figure(keys) == TrueFigure(keys) - Block(TrueFigure(keys)) * 0x1_0000_0000
  {
    AccumulateWraps(keys, -4);
    WrapAdd(Accumulate(keys, -4), 180);
    WrapAdd(-4 + Weight(keys), 180);
  }

  lemma {:induction false} WeightSplit(a: seq<QuadKey>, b: seq<QuadKey>)
    ensures Weight(a + b) == Weight(a) + Weight(b)
  {
    if a == [] {
      assert a + b == b;
    } else {
      assert (a + b)[1..] == a[1..] + b;
      WeightSplit(a[1..], b);
    }
  }

  lemma WeightErase(s: seq<QuadKey>, j: nat)
    requires j < |s|
    ensures Weight(Erase(s, j)) == Weight(s) - (|s[j]| + 21)
  {
    assert s == s[..j] + ([s[j]] + s[j + 1..]);
    WeightSplit(s[..j], [s[j]] + s[j + 1..]);
    WeightSplit([s[j]], s[j + 1..]);
    WeightSplit(s[..j], s[j + 1..]);
    assert Weight([s[j]]) == |s[j]| + 21 + Weight([s[j]][1..]);
  }

  /** Removing repeated keys makes no list heavier. */
  lemma {:induction false} DedupLightens(s: seq<QuadKey>)
    ensures Weight(Dedup(s)) <= Weight(s) && |Dedup(s)| <= |s|
  {
    if s != [] {
      var front, last := s[..|s| - 1], s[|s| - 1];
      assert s == front + [last];
      DedupLightens(front);
      WeightAppend(front, last);
      WeightAppend(Dedup(front), last);
    }
  }

  lemma WeightAppend(s: seq<QuadKey>, k: QuadKey)
    ensures Weight(s + [k]) == Weight(s) + |k| + 21
  {
    WeightSplit(s, [k]);
    assert Weight([k]) == |k| + 21 + Weight([k][1..]);
  }

  lemma EraseMultiset(s: seq<QuadKey>, j: nat)
    requires j < |s|
    ensures multiset(Erase(s, j)) == multiset(s) - multiset{s[j]}
  {
    assert s == s[..j] + [s[j]] + s[j + 1..];
  }

  /** The figure does not depend on the order of the keys. */
  lemma {:induction false} WeightPermutation(a: seq<QuadKey>, b: seq<QuadKey>)
    requires multiset(a) == multiset(b)
    ensures Weight(a) == Weight(b)
  {
    if a == [] {
      assert |multiset(b)| == 0;
    } else {
      assert a[0] in multiset(b);
      var j :| 0 <= j < |b| && b[j] == a[0];
      EraseMultiset(a, 0);
      EraseMultiset(b, j);
      assert Erase(a, 0) == a[1..];
      WeightPermutation(a[1..], Erase(b, j));
      WeightErase(b, j);
    }
  }

  lemma FigureOfPermutation(a: seq<QuadKey>, b: seq<QuadKey>)
    requires multiset(a) == multiset(b)
    ensures TrueFigure(a) == TrueFigure(b)
    ensures TrueFigure(a) < MAX_LENGTH ==> Figure(a) < MAX_LENGTH
  {
    WeightPermutation(a, b);
    FigureWraps(a);
    NotWrapped(TrueFigure(a));
  }

  lemma NotWrapped(n: int)
    requires 0 <= n
    ensures n < MAX_LENGTH ==> Wrap32(n) < MAX_LENGTH
  {
  }

  // ---- There are few short keys ----

  /** Keys counted by length and then alphabetically, from the empty key on. */
  function Rank(k: QuadKey): nat {
    if k == [] then 0 else 4 * Rank(Parent(k)) + (Last(k) as int - '0' as int) + 1
  }

  lemma SameQuotient(a: int, b: int, d: int, e: int)
    requires 4 * a + d == 4 * b + e && 0 <= d < 4 && 0 <= e < 4
    ensures a == b && d == e
  {
  }

  lemma {:induction false} RankInjective(a: QuadKey, b: QuadKey)
    requires Rank(a) == Rank(b)
    ensures a == b
    decreases |a|
  {
    if a != [] && b != [] {
      SameQuotient(Rank(Parent(a)), Rank(Parent(b)), Last(a) as int - '0' as int, Last(b) as int - '0' as int);
      RankInjective(Parent(a), Parent(b));
      assert a == Parent(a) + [Last(a)] && b == Parent(b) + [Last(b)];
    }
  }

  lemma RankOfShortKey(k: QuadKey)
    requires |k| <= 5
    ensures Rank(k) <= 1364
  {
    var n := |k|;
    if n > 0 {
      var p := Parent(k);
      if n > 1 {
        var q := Parent(p);
        if n > 2 {
          var r := Parent(q);
          if n > 3 {
            var t := Parent(r);
            assert |t| <= 1;
          }
        }
      }
    }
  }

  function Below(n: nat): (s: set<nat>)
    ensures |s| == n
    ensures forall i: nat :: i in s <==> i < n
  {
    if n == 0 then {} else Below(n - 1) + {n - 1}
  }

  function Ranks(keys: seq<QuadKey>): (r: seq<nat>)
    ensures |r| == |keys| && forall i :: 0 <= i < |r| ==> r[i] == Rank(keys[i])
  {
    if keys == [] then [] else Ranks(keys[..|keys| - 1]) + [Rank(keys[|keys| - 1])]
  }

  lemma RanksDistinct(keys: seq<QuadKey>)
    requires NoDup(keys)
    ensures NoDup(Ranks(keys))
  {
    forall i, j | 0 <= i < j < |keys|
      ensures Ranks(keys)[i] != Ranks(keys)[j]
    {
      if Rank(keys[i]) == Rank(keys[j]) {
        RankInjective(keys[i], keys[j]);
      }
    }
  }

  lemma RanksSmall(keys: seq<QuadKey>, r: nat)
    requires AtMost(keys, 5) && r in Ranks(keys)
    ensures r < 1365
  {
    var i :| 0 <= i < |keys| && Ranks(keys)[i] == r;
    RankOfShortKey(keys[i]);
  }

  /** There are at most 1365 distinct keys of at most five digits. */
  lemma ShortKeysFew(keys: seq<QuadKey>)
    requires NoDup(keys) && AtMost(keys, 5)
    ensures |keys| <= 1365
  {
    var ranks := Ranks(keys);
    RanksDistinct(keys);
    NoDupCard(ranks);
    var few := Below(1365);
    forall r: nat | r in Elements(ranks)
      ensures r in few
    {
      RanksSmall(keys, r);
    }
    SubsetCard(Elements(ranks), few);
  }

  lemma {:induction false} WeightOfShortKeys(keys: seq<QuadKey>)
    requires AtMost(keys, 5)
    ensures Weight(keys) <= 26 * |keys|
  {
    if keys != [] {
      WeightOfShortKeys(keys[1..]);
    }
  }

  /** Distinct keys of at most five digits always fit. */
  lemma ShortKeysFit(keys: seq<QuadKey>)
    requires NoDup(keys) && AtMost(keys, 5)
    ensures Figure(keys) < MAX_LENGTH
  {
    ShortKeysFew(keys);
    WeightOfShortKeys(keys);
    FigureWraps(keys);
  }

  // ---- One round of shortening ----

  /** The loop that looks for a key of `l` digits: cut its last digit off, or give `l` up. */
  method ShrinkOne(keys: seq<QuadKey>, l: nat) returns (vf: seq<QuadKey>, next: nat, ghost at: nat)
    requires keys != [] && 0 < l
    ensures next == l ==> at < |keys| && |keys[at]| == l && vf == Cut(keys, at)
    ensures next == l ==> forall i :: 0 <= i < at ==> |keys[i]| != l
    ensures next != l ==> next == l - 1 && vf == keys && forall i :: 0 <= i < |keys| ==> |keys[i]| != l
  {
    vf, next, at := keys, l, 0;
    var j := 0;
    while j < |keys|
      invariant 0 <= j < |keys|
      invariant vf == keys && next == l
      invariant forall i :: 0 <= i < j ==> |keys[i]| != l
    {
      if |vf[j]| == l {
        at := j;
        vf := vf + [vf[j][..l - 1]];
        vf := vf[..j] + vf[j + 1..];
        assert vf == Cut(keys, j);
        return;
      } else if j == |vf| - 1 {
        next := l - 1;
        return;
      }
      j := j + 1;
    }
  }

  /** The list with the last digit of one key cut off, and that key moved to the end. */
  function Cut(keys: seq<QuadKey>, at: nat): seq<QuadKey>
    requires at < |keys| && keys[at] != []
  {
    Erase(keys, at) + [Parent(keys[at])]
  }

  /** Some key of the list starts with `p`. */
  predicate Extended(keys: seq<QuadKey>, p: QuadKey) {
    exists i :: 0 <= i < |keys| && Prefix(p, keys[i])
  }

  /** `b` is `a` with some keys cut short: nothing accepted is lost, nothing is invented. */
  ghost predicate Coarsens(b: seq<QuadKey>, a: seq<QuadKey>) {
    && (forall i :: 0 <= i < |a| ==> Covers(b, a[i]))
    && (forall i :: 0 <= i < |b| ==> Extended(a, b[i]))
  }

  lemma CoarsensReflexive(a: seq<QuadKey>)
    ensures Coarsens(a, a)
  {
  }

  /** Every word accepted before is accepted by a coarser list. */
  lemma CoarserAcceptsMore(b: seq<QuadKey>, a: seq<QuadKey>, w: QuadKey)
    requires Coarsens(b, a) && Covers(a, w)
    ensures Covers(b, w)
  {
  }

  lemma CoarserExtended(b: seq<QuadKey>, a: seq<QuadKey>, p: QuadKey)
    requires Coarsens(b, a) && Extended(b, p)
    ensures Extended(a, p)
  {
  }

  lemma CoarsensTransitive(c: seq<QuadKey>, b: seq<QuadKey>, a: seq<QuadKey>)
    requires Coarsens(c, b) && Coarsens(b, a)
    ensures Coarsens(c, a)
  {
    forall i | 0 <= i < |a|
      ensures Covers(c, a[i])
    {
      CoarserAcceptsMore(c, b, a[i]);
    }
    forall i | 0 <= i < |c|
      ensures Extended(a, c[i])
    {
      CoarserExtended(b, a, c[i]);
    }
  }

  /** Cutting one key and removing the copy this may create. */
  function ShrinkAt(keys: seq<QuadKey>, at: nat): seq<QuadKey>
    requires at < |keys| && keys[at] != []
  {
    Dedup(Cut(keys, at))
  }

  lemma ShrinkAtCoarsens(keys: seq<QuadKey>, at: nat)
    requires at < |keys| && keys[at] != []
    ensures Coarsens(ShrinkAt(keys, at), keys)
  {
    var b := ShrinkAt(keys, at);
    var cut := Parent(keys[at]);
    assert keys == keys[..at] + [keys[at]] + keys[at + 1..];
    forall i | 0 <= i < |keys|
      ensures Covers(b, keys[i])
    {
      if i == at {
        assert cut in Erase(keys, at) + [cut];
        CoversIntro(b, cut, keys[i]);
      } else {
        assert Erase(keys, at)[if i < at then i else i - 1] == keys[i];
        assert keys[i] in Erase(keys, at) + [cut];
        CoversIntro(b, keys[i], keys[i]);
      }
    }
    forall i | 0 <= i < |b|
      ensures Extended(keys, b[i])
    {
      if b[i] == cut {
        assert Prefix(cut, keys[at]);
      } else {
        assert b[i] in Erase(keys, at) + [cut];
        var j :| 0 <= j < |keys| && keys[j] == b[i];
        assert Prefix(b[i], keys[j]);
      }
    }
  }

  /** One cut lowers the weight, and by no more than one key is worth. */
  lemma ShrinkAtWeight(keys: seq<QuadKey>, at: nat)
    requires at < |keys| && keys[at] != []
    ensures Weight(ShrinkAt(keys, at)) < Weight(keys) && |ShrinkAt(keys, at)| <= |keys|
    ensures NoDup(keys) ==> Weight(keys) - (|keys[at]| + 21) <= Weight(ShrinkAt(keys, at))
  {
    var rest := Erase(keys, at);
    var cut := Parent(keys[at]);
    WeightErase(keys, at);
    WeightAppend(rest, cut);
    DedupLightens(rest + [cut]);
    if NoDup(keys) {
      forall i, j | 0 <= i < j < |rest|
        ensures rest[i] != rest[j]
      {
        assert rest[i] == keys[if i < at then i else i + 1];
        assert rest[j] == keys[if j < at then j else j + 1];
      }
      DedupNoDup(rest);
      DedupAppend(rest, cut);
      WeightAppend(rest, cut);
    }
  }
}

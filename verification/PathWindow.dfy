/**
 What the ring buffer of path points means: the points accepted so far, of which the last
 `size` are live, and the distance walked over the live ones.
 */
module PathWindow {

  /** A stored path point; `pointDistance` is its distance from the point it was compared with. */
  datatype PHData = PHData(lat: real, lon: real, elev: real, heading: real, pointDistance: real)

  // ---- Slots of the ring ----

  /** The slot of the `j`-th accepted point. */
  function Slot(j: nat, cap: nat): (s: nat)
    requires cap > 0
    ensures s < cap
  {
    if j < cap then j else Slot(j - cap, cap)
  }

  function Next(idx: nat, cap: nat): nat
    requires idx < cap
  {
    (idx + 1) % cap
  }

  lemma NextWraps(idx: nat, cap: nat)
    requires idx < cap
    ensures Next(idx, cap) == if idx + 1 == cap then 0 else idx + 1
  {
  }

  lemma {:induction false} SlotNext(j: nat, cap: nat)
    requires cap > 0
    ensures Slot(j + 1, cap) == Next(Slot(j, cap), cap)
  {
    NextWraps(Slot(j, cap), cap);
    if j >= cap {
      SlotNext(j - cap, cap);
    }
  }

  /** The slot is the index modulo the capacity. */
  lemma {:induction false} SlotIsRemainder(j: nat, cap: nat)
    requires cap > 0
    ensures Slot(j, cap) == j % cap
  {
    if j >= cap {
      SlotIsRemainder(j - cap, cap);
      assert (j - cap) % cap == j % cap by {
        Remainder(j, cap);
      }
    }
  }

  lemma Remainder(j: nat, cap: nat)
    requires 0 < cap <= j
    ensures (j - cap) % cap == j % cap
  {
    var q, r, q', r' := j / cap, j % cap, (j - cap) / cap, (j - cap) % cap;
    assert j == q * cap + r && j - cap == q' * cap + r';
    MultipleAway(q - 1 - q', cap);
    assert (q - 1 - q') * cap == q * cap - cap - q' * cap;
    assert (q - 1 - q') * cap == r' - r;
  }

  /** A multiple of `cap` between `-cap` and `cap` is zero. */
  lemma MultipleAway(d: int, cap: nat)
    ensures d >= 1 ==> d * cap >= cap
    ensures d <= -1 ==> d * cap + cap <= 0
  {
  }

  /** Points fewer than `cap` apart are in different slots. */
  lemma {:induction false} SlotsDiffer(i: nat, j: nat, cap: nat)
    requires i < j < i + cap
    ensures Slot(i, cap) != Slot(j, cap)
  {
    if i >= cap {
      SlotsDiffer(i - cap, j - cap, cap);
    }
  }

  /** The ring holds the last `size` accepted points in their slots. */
  ghost predicate Holds(ring: seq<PHData>, accepted: seq<PHData>, size: nat) {
    && 0 < |ring| && size <= |ring| && size <= |accepted|
    && forall j {:trigger accepted[j]} :: |accepted| - size <= j < |accepted| ==> ring[Slot(j, |ring|)] == accepted[j]
  }

  /** A new point goes to the next slot; of the others, all but the oldest of a full ring stay. */
  lemma StoreKeeps(ring: seq<PHData>, accepted: seq<PHData>, size: nat, x: PHData, size': nat)
    requires Holds(ring, accepted, size)
    requires size' <= size + 1 && size' <= |ring|
    ensures Holds(ring[Slot(|accepted|, |ring|) := x], accepted + [x], size')
  {
    var cap, n := |ring|, |accepted|;
    var ring', accepted' := ring[Slot(n, cap) := x], accepted + [x];
    forall j | n + 1 - size' <= j < n + 1
      ensures ring'[Slot(j, cap)] == accepted'[j]
    {
      if j < n {
        SlotsDiffer(j, n, cap);
        assert accepted[j] == accepted'[j];
      }
    }
  }

  // ---- Distances ----

  /** The distance over the accepted points from the `i`-th on. */
  function Walked(accepted: seq<PHData>, i: nat): real
    decreases |accepted| - i
  {
    if i >= |accepted| then 0.0 else accepted[i].pointDistance + Walked(accepted, i + 1)
  }

  lemma {:induction false} WalkedAppend(accepted: seq<PHData>, x: PHData, i: nat)
    requires i <= |accepted|
    ensures Walked(accepted + [x], i) == Walked(accepted, i) + x.pointDistance
    decreases |accepted| - i
  {
    if i < |accepted| {
      assert (accepted + [x])[i] == accepted[i];
      WalkedAppend(accepted, x, i + 1);
    } else {
      assert (accepted + [x])[i] == x;
      assert Walked(accepted + [x], i + 1) == 0.0;
    }
  }

  lemma {:induction false} WalkedSplit(accepted: seq<PHData>, i: nat)
    requires i <= |accepted|
    ensures Walked(accepted, 0) == Walked(accepted[..i], 0) + Walked(accepted, i)
  {
    if i == 0 {
      assert accepted[..0] == [];
    } else {
      WalkedSplit(accepted, i - 1);
      assert accepted[..i] == accepted[..i - 1] + [accepted[i - 1]];
      WalkedAppend(accepted[..i - 1], accepted[i - 1], 0);
    }
  }

  /** `n` points, each at least `step` away from the one before, make a walk of at least `n` steps. */
  lemma {:induction false} WalkedAtLeast(accepted: seq<PHData>, i: nat, n: nat, step: real)
    requires i + n == |accepted|
    requires forall j :: i <= j < |accepted| ==> accepted[j].pointDistance >= step
    ensures Walked(accepted, i) >= n as real * step
    decreases n
  {
    if n > 0 {
      WalkedAtLeast(accepted, i + 1, n - 1, step);
      assert n as real * step == (n - 1) as real * step + step;
    }
  }

  // ---- Eviction ----

  /** The bookkeeping of the live points. */
  datatype Span = Span(oldest: nat, size: nat, stored: real)

  /** Drop the oldest point. */
  function Drop(ring: seq<PHData>, s: Span): (r: Span)
    requires s.oldest < |ring| && s.size > 0
    ensures r.oldest < |ring| && r.size == s.size - 1
  {
    Span(Next(s.oldest, |ring|), s.size - 1, s.stored - ring[s.oldest].pointDistance)
  }

  /** The default policy: drop points while the distance is over the limit, but never the last one. */
  function EvictMany(ring: seq<PHData>, s: Span, limit: real): (r: Span)
    requires s.oldest < |ring|
    ensures r.oldest < |ring| && r.size <= s.size && (s.size > 0 ==> r.size > 0)
    decreases s.size
  {
    if s.stored >= limit && s.size > 1 then EvictMany(ring, Drop(ring, s), limit) else s
  }

  function Evict(ring: seq<PHData>, s: Span, limit: real, onlyOne: bool): (r: Span)
    requires s.oldest < |ring| && s.size > 0
    ensures r.oldest < |ring| && r.size <= s.size
  {
    if !onlyOne then EvictMany(ring, s, limit)
    else if s.stored >= limit then Drop(ring, s)
    else s
  }

  /** The bookkeeping is right: the oldest live point is where it should be, and the distance is the one walked. */
  ghost predicate Accounts(s: Span, accepted: seq<PHData>, cap: nat) {
    && cap > 0 && s.size <= |accepted|
    && s.oldest == Slot(|accepted| - s.size, cap)
    && s.stored == Walked(accepted, |accepted| - s.size)
  }

  lemma {:induction false} SlotOfSum(j: nat, n: nat, cap: nat)
    requires cap > 0
    ensures Slot(Slot(j, cap) + n, cap) == Slot(j + n, cap)
  {
    if n > 0 {
      SlotOfSum(j, n - 1, cap);
      SlotNext(Slot(j, cap) + (n - 1), cap);
      SlotNext(j + (n - 1), cap);
    }
  }

  /** With the bookkeeping right, the oldest index and the size lead to the next index. */
  lemma OldestReachesNext(s: Span, accepted: seq<PHData>, cap: nat)
    requires Accounts(s, accepted, cap)
    ensures (s.oldest + s.size) % cap == Slot(|accepted|, cap)
  {
    SlotOfSum(|accepted| - s.size, s.size, cap);
    SlotIsRemainder(s.oldest + s.size, cap);
  }

  lemma DropAccounts(ring: seq<PHData>, accepted: seq<PHData>, s: Span)
    requires Holds(ring, accepted, s.size) && s.size > 0 && Accounts(s, accepted, |ring|)
    ensures Accounts(Drop(ring, s), accepted, |ring|) && Holds(ring, accepted, s.size - 1)
  {
    var first := |accepted| - s.size;
    SlotNext(first, |ring|);
    assert ring[Slot(first, |ring|)] == accepted[first];
  }

  /**
   With the bookkeeping right, the default policy keeps the largest number of newest points
   whose distance is under the limit, or the newest one alone.
   */
  lemma {:induction false} EvictManyKeepsMost(ring: seq<PHData>, accepted: seq<PHData>, s: Span, limit: real)
    requires Holds(ring, accepted, s.size) && s.size > 0 && Accounts(s, accepted, |ring|)
    ensures var r := EvictMany(ring, s, limit);
            && Accounts(r, accepted, |ring|) && Holds(ring, accepted, r.size)
            && (Walked(accepted, |accepted| - r.size) < limit || r.size == 1)
            && forall i :: |accepted| - s.size <= i < |accepted| - r.size ==> Walked(accepted, i) >= limit
    decreases s.size
  {
    if s.stored >= limit && s.size > 1 {
      DropAccounts(ring, accepted, s);
      EvictManyKeepsMost(ring, accepted, Drop(ring, s), limit);
    }
  }

  lemma EvictAccounts(ring: seq<PHData>, accepted: seq<PHData>, s: Span, limit: real, onlyOne: bool)
    requires Holds(ring, accepted, s.size) && s.size > 0 && Accounts(s, accepted, |ring|)
    ensures var r := Evict(ring, s, limit, onlyOne);
            Accounts(r, accepted, |ring|) && Holds(ring, accepted, r.size)
  {
    if !onlyOne {
      EvictManyKeepsMost(ring, accepted, s, limit);
    } else if s.stored >= limit {
      DropAccounts(ring, accepted, s);
    }
  }

  /** The distances of `k` points on the ring, from slot `o` on. */
  function Passed(ring: seq<PHData>, o: nat, k: nat): real
    requires o < |ring|
    decreases k
  {
    if k == 0 then 0.0 else ring[o].pointDistance + Passed(ring, Next(o, |ring|), k - 1)
  }

  /**
   Dropping `k` points makes room: one point or none, as the distance demands, with the policy that
   drops one at most; else as many as it takes to get under the limit, but never the last one.
   */
  ghost predicate RoomMade(ring: seq<PHData>, s: Span, r: Span, limit: real, onlyOne: bool, k: nat)
    requires s.oldest < |ring|
  {
    && r.size == s.size - k && r.oldest == (s.oldest + k) % |ring| && r.stored == s.stored - Passed(ring, s.oldest, k)
    && (onlyOne ==> k == if s.stored >= limit then 1 else 0)
    && (!onlyOne ==>
          && (r.stored < limit || r.size == 1) && r.size >= 1
          && forall j :: 0 <= j < k ==> s.stored - Passed(ring, s.oldest, j) >= limit)
  }

  ghost predicate MakesRoom(ring: seq<PHData>, s: Span, r: Span, limit: real, onlyOne: bool) {
    s.oldest < |ring| && exists k :: RoomMade(ring, s, r, limit, onlyOne, k)
  }

  lemma OneSlotOn(o: nat, k: nat, n: nat)
    requires o < n && k > 0
    ensures (Next(o, n) + (k - 1)) % n == (o + k) % n
  {
    NextWraps(o, n);
    if o + 1 == n {
      Remainder(o + k, n);
    }
  }

  lemma PassedStep(ring: seq<PHData>, o: nat, k: nat)
    requires o < |ring|
    ensures Passed(ring, o, 0) == 0.0
    ensures k > 0 ==> Passed(ring, o, k) == ring[o].pointDistance + Passed(ring, Next(o, |ring|), k - 1)
  {
  }

  /** Dropping one point before the others. */
  lemma RoomStep(ring: seq<PHData>, s: Span, r: Span, limit: real, k: nat)
    requires s.oldest < |ring| && s.size > 1 && s.stored >= limit
    requires RoomMade(ring, Drop(ring, s), r, limit, false, k)
    ensures RoomMade(ring, s, r, limit, false, k + 1)
  {
    hide Passed, Next;
    OneSlotOn(s.oldest, k + 1, |ring|);
    PassedStep(ring, s.oldest, k + 1);
    forall j | 0 <= j < k + 1
      ensures s.stored - Passed(ring, s.oldest, j) >= limit
    {
      PassedStep(ring, s.oldest, j);
      if j > 0 {
        assert Drop(ring, s).stored - Passed(ring, Next(s.oldest, |ring|), j - 1) >= limit;
      }
    }
  }

  lemma NoRoomNeeded(ring: seq<PHData>, s: Span, limit: real)
    requires s.oldest < |ring| && s.size > 0 && (s.stored < limit || s.size == 1)
    ensures RoomMade(ring, s, s, limit, false, 0)
  {
  }

  lemma {:induction false} EvictManyMakesRoom(ring: seq<PHData>, s: Span, limit: real) returns (k: nat)
    requires s.oldest < |ring| && s.size > 0
    ensures RoomMade(ring, s, EvictMany(ring, s, limit), limit, false, k)
    decreases s.size
  {
    hide RoomMade, Next, Passed;
    if s.stored >= limit && s.size > 1 {
      var rest := EvictManyMakesRoom(ring, Drop(ring, s), limit);
      RoomStep(ring, s, EvictMany(ring, s, limit), limit, rest);
      k := rest + 1;
    } else {
      NoRoomNeeded(ring, s, limit);
      k := 0;
    }
  }

  /** Both policies make room, as `RoomMade` says. */
  lemma EvictMakesRoom(ring: seq<PHData>, s: Span, limit: real, onlyOne: bool)
    requires s.oldest < |ring| && s.size > 0
    ensures MakesRoom(ring, s, Evict(ring, s, limit, onlyOne), limit, onlyOne)
  {
    if onlyOne {
      assert Passed(ring, Next(s.oldest, |ring|), 0) == 0.0;
      assert RoomMade(ring, s, Evict(ring, s, limit, onlyOne), limit, onlyOne, if s.stored >= limit then 1 else 0);
    } else {
      var k := EvictManyMakesRoom(ring, s, limit);
    }
  }

  // ---- A new point ----

  /** The bookkeeping once a point is stored: a full ring stays full, and its oldest index stays where it was. */
  function Store(s: Span, cap: nat, pointDistance: real): Span {
    Span(s.oldest, if s.size < cap then s.size + 1 else s.size, s.stored + pointDistance)
  }

  /** A full ring in which no point is dropped: the new point goes over the oldest. */
  predicate Overwrites(s: Span, cap: nat, limit: real, onlyOne: bool) {
    s.size == cap && (s.stored < limit || (!onlyOne && s.size <= 1))
  }

  /**
   Storing a point keeps the bookkeeping right exactly when it does not go over the oldest
   one. (In a ring for a single point it also stays right when the lost distance is zero.)
   */
  lemma StoreAccounts(ring: seq<PHData>, accepted: seq<PHData>, s: Span, limit: real, onlyOne: bool, x: PHData)
    requires Holds(ring, accepted, s.size) && s.size > 0 && Accounts(s, accepted, |ring|)
    ensures Accounts(Store(Evict(ring, s, limit, onlyOne), |ring|, x.pointDistance), accepted + [x], |ring|)
        <==> !Overwrites(s, |ring|, limit, onlyOne) || (|ring| == 1 && s.stored == 0.0)
  {
    var e, n := Evict(ring, s, limit, onlyOne), |accepted|;
    EvictAccounts(ring, accepted, s, limit, onlyOne);
    WalkedAppend(accepted, x, n - e.size);
    if e.size == |ring| {
      SlotNext(n - e.size, |ring|);
      NextWraps(Slot(n - e.size, |ring|), |ring|);
      WalkedAppend(accepted, x, n);
      if |ring| == 1 {
        assert Walked(accepted, n) == 0.0;
        assert Walked(accepted + [x], n) == x.pointDistance;
      }
    }
  }

  /** All points but the first one since the start are at least `step` away from the point before. */
  ghost predicate Spaced(accepted: seq<PHData>, step: real) {
    forall j :: 1 <= j < |accepted| ==> accepted[j].pointDistance >= step
  }

  /**
   With the bookkeeping right and a ring long enough for the limit, a point can go over the
   oldest one only while the very first point is still live, whose distance is zero.
   */
  lemma OverwriteOnlyWithFirst(accepted: seq<PHData>, s: Span, cap: nat, limit: real, step: real, onlyOne: bool)
    requires cap >= 2 && cap as real * step >= limit
    requires Accounts(s, accepted, cap) && Spaced(accepted, step)
    requires Overwrites(s, cap, limit, onlyOne)
    ensures |accepted| == cap
  {
    if |accepted| > cap {
      WalkedAtLeast(accepted, |accepted| - cap, cap, step);
    }
  }

  // ---- The first filling of the ring ----

  /**
   While the ring is filled for the first time, no point has been dropped exactly when the
   distance up to the point before the newest one is under the limit.
   */
  ghost predicate Filling(accepted: seq<PHData>, size: nat, cap: nat, limit: real) {
    && (accepted != [] ==> accepted[0].pointDistance == 0.0)
    && (0 < |accepted| <= cap ==> (size == |accepted| <==> Walked(accepted[..|accepted| - 1], 0) < limit))
  }

  /** The next point goes over the very first one: the ring has just been filled, and the limit has not been reached. */
  ghost predicate FillsShort(accepted: seq<PHData>, cap: nat, limit: real) {
    |accepted| >= cap && Walked(accepted[..cap], 0) < limit
  }

  /** How far a first filling has come after one more point. */
  lemma FillingKept(ring: seq<PHData>, accepted: seq<PHData>, s: Span, limit: real, onlyOne: bool, x: PHData)
    requires Holds(ring, accepted, s.size) && s.size > 0 && Accounts(s, accepted, |ring|) && limit > 0.0
    requires Filling(accepted, s.size, |ring|, limit) && x.pointDistance >= 0.0
    requires forall j :: 0 <= j < |accepted| ==> accepted[j].pointDistance >= 0.0
    ensures var r := Store(Evict(ring, s, limit, onlyOne), |ring|, x.pointDistance);
            Filling(accepted + [x], r.size, |ring|, limit)
  {
    var n, e := |accepted|, Evict(ring, s, limit, onlyOne);
    if n < |ring| {
      assert (accepted + [x])[..n] == accepted;
      assert accepted == accepted[..n - 1] + [accepted[n - 1]];
      WalkedAppend(accepted[..n - 1], accepted[n - 1], 0);
      if n == 1 {
        assert Walked(accepted, 1) == 0.0;
      }
    }
  }

  // ---- What the distance is once a point has gone over the oldest one ----

  /** The slots hold the last accepted points, live or not. */
  ghost predicate Retains(ring: seq<PHData>, accepted: seq<PHData>) {
    0 < |ring| && Holds(ring, accepted, if |accepted| < |ring| then |accepted| else |ring|)
  }

  /** A new point goes over the one that was in its slot. */
  lemma StoreRetains(ring: seq<PHData>, accepted: seq<PHData>, x: PHData)
    requires Retains(ring, accepted)
    ensures Retains(ring[Slot(|accepted|, |ring|) := x], accepted + [x])
  {
    var n, cap := |accepted|, |ring|;
    StoreKeeps(ring, accepted, if n < cap then n else cap, x, if n + 1 < cap then n + 1 else cap);
  }

  /** The last of the first `n` points that went into the slot of the `j`-th one. */
  function LatestInSlot(j: nat, n: nat, cap: nat): (k: nat)
    requires 0 < cap && j < n
    ensures j <= k < n <= k + cap
    decreases n - j
  {
    if j + cap < n then LatestInSlot(j + cap, n, cap) else j
  }

  lemma {:induction false} LatestSameSlot(j: nat, n: nat, cap: nat)
    requires 0 < cap && j < n
    ensures Slot(LatestInSlot(j, n, cap), cap) == Slot(j, cap)
    decreases n - j
  {
    if j + cap < n {
      LatestSameSlot(j + cap, n, cap);
    }
  }

  /** How many points have been dropped, and how much of the distance is not that of a point behind them. */
  datatype Count = Count(dropped: nat, drift: real)

  /**
   The oldest index is where the dropped points lead to, and the distance is the one walked from
   there, but for the drift. Points that were overwritten are neither dropped nor live.
   */
  ghost predicate Drifts(s: Span, accepted: seq<PHData>, cap: nat, c: Count) {
    && cap > 0 && c.dropped + s.size <= |accepted|
    && s.oldest == Slot(c.dropped, cap)
    && s.stored == Walked(accepted, c.dropped) + c.drift
  }

  /** By how much too much is subtracted when the `j`-th point is dropped. */
  function Miscount(accepted: seq<PHData>, cap: nat, j: nat): real
    requires 0 < cap && j < |accepted|
  {
    accepted[LatestInSlot(j, |accepted|, cap)].pointDistance - accepted[j].pointDistance
  }

  /** The count once `k` more points have been dropped. */
  function Recount(c: Count, accepted: seq<PHData>, cap: nat, k: nat): (r: Count)
    requires 0 < cap && c.dropped + k <= |accepted|
    ensures r.dropped == c.dropped + k
    decreases k
  {
    if k == 0 then c
    else Recount(Count(c.dropped + 1, c.drift - Miscount(accepted, cap, c.dropped)), accepted, cap, k - 1)
  }

  lemma DropDrifts(ring: seq<PHData>, accepted: seq<PHData>, s: Span, c: Count)
    requires Retains(ring, accepted) && s.size > 0 && Drifts(s, accepted, |ring|, c)
    ensures Drifts(Drop(ring, s), accepted, |ring|, Recount(c, accepted, |ring|, 1))
  {
    var j, cap := c.dropped, |ring|;
    var k := LatestInSlot(j, |accepted|, cap);
    LatestSameSlot(j, |accepted|, cap);
    SlotNext(j, cap);
    assert ring[Slot(k, cap)] == accepted[k];
    assert Recount(c, accepted, cap, 1) == Count(j + 1, c.drift - Miscount(accepted, cap, j));
  }

  lemma {:induction false} EvictManyDrifts(ring: seq<PHData>, accepted: seq<PHData>, s: Span, limit: real, c: Count)
    requires Retains(ring, accepted) && s.size > 0 && Drifts(s, accepted, |ring|, c)
    ensures var r := EvictMany(ring, s, limit);
            Drifts(r, accepted, |ring|, Recount(c, accepted, |ring|, s.size - r.size))
    decreases s.size
  {
    hide Retains, Drifts, Miscount, Walked, Slot;
    CountFits(s, accepted, |ring|, c);
    if s.stored >= limit && s.size > 1 {
      DropDrifts(ring, accepted, s, c);
      EvictManyDrifts(ring, accepted, Drop(ring, s), limit, Recount(c, accepted, |ring|, 1));
    }
  }

  lemma CountFits(s: Span, accepted: seq<PHData>, cap: nat, c: Count)
    requires Drifts(s, accepted, cap, c)
    ensures cap > 0 && c.dropped + s.size <= |accepted| && s.oldest < cap
  {
  }

  /** A point that is taken, after the eviction in front of it. */
  lemma InsertDrifts(ring: seq<PHData>, accepted: seq<PHData>, s: Span, limit: real, onlyOne: bool, x: PHData, c: Count)
    requires Retains(ring, accepted) && s.size > 0 && Drifts(s, accepted, |ring|, c)
    ensures var r := Evict(ring, s, limit, onlyOne);
            Drifts(Store(r, |ring|, x.pointDistance), accepted + [x], |ring|,
                   Recount(c, accepted, |ring|, s.size - r.size))
  {
    if !onlyOne {
      EvictManyDrifts(ring, accepted, s, limit, c);
    } else if s.stored >= limit {
      DropDrifts(ring, accepted, s, c);
    }
    StoreDrifts(accepted, Evict(ring, s, limit, onlyOne), |ring|, x,
                Recount(c, accepted, |ring|, s.size - Evict(ring, s, limit, onlyOne).size));
  }

  lemma StoreDrifts(accepted: seq<PHData>, s: Span, cap: nat, x: PHData, c: Count)
    requires Drifts(s, accepted, cap, c)
    ensures Drifts(Store(s, cap, x.pointDistance), accepted + [x], cap, c)
  {
    WalkedAppend(accepted, x, c.dropped);
  }

  /** How many points have been overwritten. */
  function Overwritten(s: Span, accepted: seq<PHData>, c: Count): int {
    |accepted| - s.size - c.dropped
  }

  /**
   The distance exceeds the one walked over the live points by the drift and the distances of
   the overwritten points.
   */
  lemma ExcessIs(s: Span, accepted: seq<PHData>, cap: nat, c: Count)
    requires Drifts(s, accepted, cap, c)
    ensures s.stored - Walked(accepted, |accepted| - s.size)
         == c.drift + Walked(accepted[..|accepted| - s.size], c.dropped)
  {
    WalkedFrom(accepted, c.dropped, |accepted| - s.size);
  }

  lemma {:induction false} WalkedFrom(accepted: seq<PHData>, i: nat, j: nat)
    requires i <= j <= |accepted|
    ensures Walked(accepted, i) == Walked(accepted[..j], i) + Walked(accepted, j)
    decreases j - i
  {
    if i < j {
      WalkedFrom(accepted, i + 1, j);
    }
  }

  /**
   What the next dropped point is miscounted by: nothing as long as its slot has not been used
   again, and in a full ring, when one point has been overwritten, the newest point is
   subtracted in its place.
   */
  lemma MiscountWhen(s: Span, accepted: seq<PHData>, cap: nat, c: Count)
    requires Drifts(s, accepted, cap, c) && c.dropped < |accepted|
    ensures s.size + Overwritten(s, accepted, c) <= cap ==> Miscount(accepted, cap, c.dropped) == 0.0
    ensures s.size == cap && Overwritten(s, accepted, c) == 1 ==>
              Miscount(accepted, cap, c.dropped)
              == accepted[|accepted| - 1].pointDistance - accepted[c.dropped].pointDistance
  {
  }

  /** Without an overwritten point nothing is miscounted. */
  lemma {:induction false} NoMiscount(c: Count, accepted: seq<PHData>, cap: nat, k: nat)
    requires 0 < cap && c.dropped + k <= |accepted| <= c.dropped + cap
    ensures Recount(c, accepted, cap, k) == Count(c.dropped + k, c.drift)
    decreases k
  {
    if k > 0 {
      NoMiscount(Count(c.dropped + 1, c.drift), accepted, cap, k - 1);
    }
  }

  /** The count after a run of points, of which the `i`-th made the ring drop `drops[i]` points first. */
  ghost function CountAfter(c: Count, accepted: seq<PHData>, first: nat, drops: seq<nat>, cap: nat): Count
    requires 0 < cap && first + |drops| <= |accepted|
    decreases |drops|
  {
    if drops == [] then c
    else
      var before := CountAfter(c, accepted, first, drops[..|drops| - 1], cap);
      var n, k := first + |drops| - 1, drops[|drops| - 1];
      if before.dropped + k <= n then Recount(before, accepted[..n], cap, k) else before
  }
}

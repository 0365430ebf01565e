/** The path history of a vehicle: a ring buffer of points with distance-based eviction. */
module PathHistory {
  import opened MachineWords
  import opened PathWindow
  import opened Reals

  /** The fields of `vehicleData_t` the path history reads. */
  datatype Vehicle = Vehicle(lat: real, lon: real, elevation: real, heading: real)

  datatype Status = Inserted | Skipped | ContinueIteration | TerminateIteration

  /** The data handed out ahead of an iteration; `Nothing` stands for the `DBL_MAX` fields. */
  datatype Peek = Ahead(point: PHData) | Nothing

  /** The great-circle distance, left abstract. */
  type Distance = (real, real, real, real) -> real

  function AngDiff(a: real, b: real): real {
    var d := a - b;
    if d > 180.0 then d - 360.0 else if d < -180.0 then d + 360.0 else d
  }

  /** How far two headings are apart when one of them is turned by full circles. */
  function Turn(a: real, b: real, k: int): real {
    var d := a - b + 360.0 * k as real;
    if d < 0.0 then -d else d
  }

  /** The headings are off by at least `x` degrees, whichever way round. */
  ghost predicate TurnedBy(a: real, b: real, x: real) {
    forall k: int :: Turn(a, b, k) >= x
  }

  /** The difference is the least one exactly for headings at most one and a half circles apart; valid ones are. */
  lemma AngDiffLeast(a: real, b: real)
    ensures exists k: int :: Turn(a, b, k) == Abs(AngDiff(a, b))
    ensures -540.0 <= a - b <= 540.0 <==> forall k: int :: Abs(AngDiff(a, b)) <= Turn(a, b, k)
  {
    var d := a - b;
    assert Turn(a, b, if d > 180.0 then -1 else if d < -180.0 then 1 else 0) == Abs(AngDiff(a, b));
    if -540.0 <= d <= 540.0 {
      forall k: int
        ensures Abs(AngDiff(a, b)) <= Turn(a, b, k)
      {
        FullCircles(k);
      }
    } else {
      assert Turn(a, b, if d > 0.0 then -2 else 2) < Abs(AngDiff(a, b));
    }
  }

  lemma FullCircles(k: int)
    ensures k >= 1 ==> 360.0 * k as real >= 360.0
    ensures k >= 2 ==> 360.0 * k as real >= 720.0
    ensures k >= 3 ==> 360.0 * k as real >= 1080.0
    ensures k <= -1 ==> 360.0 * k as real <= -360.0
    ensures k <= -2 ==> 360.0 * k as real <= -720.0
    ensures k <= -3 ==> 360.0 * k as real <= -1080.0
  {
  }

  lemma AngDiffTurned(a: real, b: real, x: real)
    requires -540.0 <= a - b <= 540.0
    ensures TurnedBy(a, b, x) <==> Abs(AngDiff(a, b)) >= x
  {
    hide AngDiff, Abs;
    AngDiffLeast(a, b);
    var k: int :| Turn(a, b, k) == Abs(AngDiff(a, b));
  }

  /** A position that was offered, the point it was compared with, and whether it was taken. */
  datatype Offer = Offer(v: Vehicle, previous: Option<PHData>, taken: bool)

  /** The iterator structure a caller keeps between calls of `iterate`. */
  class Iterator {
    var started: bool
    var idx: nat
    var cyclicIdx: nat
    var size: nat
    var data: PHData

    constructor ()
      ensures !started
    {
      started := false;
      idx, cyclicIdx, size := 0, 0, 0;
      data := PHData(0.0, 0.0, 0.0, 0.0, 0.0);
    }
  }

  class PathHistory {
    const distance: Distance
    const distanceLimit: real
    const minDist: real
    const capacity: nat
    var maxDist: real
    var maxHeadingDiff: real
    const points: array<PHData>
    var nextIdx: nat
    var oldestIdx: nat
    var size: nat
    var storedDistance: real
    var removeOnlyOne: bool
    var iterateFull: bool

    /** The points accepted since construction or the last `clear`. */
    ghost var accepted: seq<PHData>

    ghost predicate Valid()
      reads this, points
    {
      && points.Length == capacity && oldestIdx < capacity && size <= capacity && size <= |accepted|
      && PathWindow.Holds(points[..], accepted, size)
      && nextIdx == Slot(|accepted|, capacity)
      && (size == 0 <==> accepted == [])
    }

    function Live(): Span
      reads this
    {
      Span(oldestIdx, size, storedDistance)
    }

    /** The bookkeeping agrees with the points that are live. */
    ghost predicate Accounting()
      reads this
    {
      Accounts(Live(), accepted, capacity)
    }

    /** `uninitialised` is what happens to be in `m_stored_distance`, which no constructor sets. */
    constructor (distance: Distance, distanceLimit: real, minDist: real, maxDist: real, maxHeadingDiff: real,
                 uninitialised: real, blank: PHData)
      requires distanceLimit > 0.0 && minDist > 0.0
      ensures Valid() && fresh(points) && accepted == [] && Live() == Span(0, 0, uninitialised)
      ensures this.distance == distance && this.distanceLimit == distanceLimit && this.minDist == minDist
      ensures this.maxDist == maxDist && this.maxHeadingDiff == maxHeadingDiff
      ensures capacity == Ceil(distanceLimit / minDist) && storedDistance == uninitialised
      ensures Accounting() <==> uninitialised == 0.0
      ensures !removeOnlyOne && !iterateFull
    {
      CapacityPositive(distanceLimit, minDist);
      this.distance, this.distanceLimit, this.minDist := distance, distanceLimit, minDist;
      this.maxDist, this.maxHeadingDiff := maxDist, maxHeadingDiff;
      capacity := Ceil(distanceLimit / minDist);
      points := new PHData[Ceil(distanceLimit / minDist)](_ => blank);
      nextIdx, oldestIdx, size, storedDistance := 0, 0, 0, uninitialised;
      removeOnlyOne, iterateFull := false, false;
      accepted := [];
    }

    /** The index `insert` takes for that of the previously saved point. */
    function PrevIdx(): nat
      requires size >= 1
      reads this
    {
      if nextIdx == 0 then size - 1 else nextIdx - 1
    }

    /** The index of the newest point. */
    ghost function NewestIdx(): nat
      requires accepted != [] && capacity > 0
      reads this
    {
      Slot(|accepted| - 1, capacity)
    }

    /** The point a new position is compared with. */
    function Previous(): PHData
      requires size >= 1 && points.Length == capacity && PrevIdx() < capacity
      reads this, points
    {
      points[PrevIdx()]
    }

    /** Far enough away, or not too near and turned. */
    ghost predicate Leaves(p: PHData, v: Vehicle)
      reads this`maxDist, this`maxHeadingDiff
    {
      var d := distance(p.lat, p.lon, v.lat, v.lon);
      d >= maxDist || (d >= minDist && TurnedBy(p.heading, v.heading, maxHeadingDiff))
    }

    /** A position is taken exactly when there was no point, or it leaves the one it was compared with. */
    ghost predicate Decided(o: Offer)
      reads this`maxDist, this`maxHeadingDiff
    {
      match o.previous
      case None => o.taken
      case Some(p) => -540.0 <= p.heading - o.v.heading <= 540.0 ==> (o.taken <==> Leaves(p, o.v))
    }

    /** How far the new position is from the point it is compared with. */
    function Step(v: Vehicle): real
      requires size >= 1 && points.Length == capacity && PrevIdx() < capacity
      reads this, points
    {
      var p := points[PrevIdx()];
      distance(p.lat, p.lon, v.lat, v.lon)
    }

    /** A position is taken when it is far enough away, or not too near and the heading has changed. */
    predicate Accepts(v: Vehicle)
      requires size >= 1 ==> points.Length == capacity && PrevIdx() < capacity
      reads this, points
    {
      || size == 0
      || Step(v) >= maxDist
      || (Step(v) >= minDist && Abs(AngDiff(points[PrevIdx()].heading, v.heading)) >= maxHeadingDiff)
    }

    /** The point of a position that is taken. */
    function Taken(v: Vehicle): PHData
      requires size >= 1 ==> points.Length == capacity && PrevIdx() < capacity
      reads this, points
    {
      PHData(v.lat, v.lon, v.elevation, v.heading, if size == 0 then 0.0 else Step(v))
    }

    /** The live points once room has been made. */
    function Evicted(): (s: Span)
      requires points.Length == capacity && oldestIdx < capacity
      ensures s.oldest < capacity && s.size <= size
      reads this, points
    {
      if size == 0 then Live() else Evict(points[..], Live(), distanceLimit, removeOnlyOne)
    }

    /** A point taken now goes over the oldest one. */
    predicate OverwritesOldest()
      reads this
    {
      size >= 1 && Overwrites(Live(), capacity, distanceLimit, removeOnlyOne)
    }

    /** The point of a position that was taken. */
    function TakenPoint(o: Offer): PHData
    {
      var walked := match o.previous
                    case None => 0.0
                    case Some(p) => distance(p.lat, p.lon, o.v.lat, o.v.lon);
      PHData(o.v.lat, o.v.lon, o.v.elevation, o.v.heading, walked)
    }

    lemma AcceptsDecides(v: Vehicle)
      requires Valid()
      ensures size >= 1 ==> PrevIdx() < capacity
      ensures var o := Offer(v, if size == 0 then None else Some(Previous()), Accepts(v));
              Decided(o) && Taken(v) == TakenPoint(o)
    {
      hide AngDiff, Abs, TurnedBy;
      if size >= 1 {
        PrevInRange();
        var a, b := Previous().heading, v.heading;
        if -540.0 <= a - b <= 540.0 {
          AngDiffTurned(a, b, maxHeadingDiff);
        }
      }
    }

    lemma PrevInRange()
      requires Valid() && size >= 1
      ensures PrevIdx() < capacity
    {
    }

    lemma FirstOrNext(ring: seq<PHData>, accepted: seq<PHData>, s: Span, x: PHData)
      requires PathWindow.Holds(ring, accepted, s.size) && Accounts(s, accepted, |ring|)
      requires s.size == 0 ==> accepted == [] && x.pointDistance == 0.0
      ensures var room := if s.size == 0 then s else Evict(ring, s, distanceLimit, removeOnlyOne);
              && var kept := Accounts(Store(room, |ring|, x.pointDistance), accepted + [x], |ring|);
              && var over := Overwrites(s, |ring|, distanceLimit, removeOnlyOne);
                 (kept <==> s.size == 0 || !over || (|ring| == 1 && s.stored == 0.0))
    {
      if s.size > 0 {
        StoreAccounts(ring, accepted, s, distanceLimit, removeOnlyOne, x);
      } else {
        WalkedAppend(accepted, x, 0);
      }
    }

    /** The first part of `insert`: the distance from the previously saved point, and whether the position is taken. */
    method Compare(v: Vehicle) returns (takes: bool, pointDist: real)
      requires Valid()
      ensures size >= 1 ==> PrevIdx() < capacity
      ensures takes == Accepts(v) && pointDist == Taken(v).pointDistance
    {
      hide AngDiff, Abs, PathWindow.Holds;
      takes, pointDist := true, 0.0;
      if size >= 1 {
        PrevInRange();
        var prevIdx := if nextIdx == 0 then size - 1 else nextIdx - 1;
        pointDist := distance(points[prevIdx].lat, points[prevIdx].lon, v.lat, v.lon);
        if pointDist < maxDist {
          if pointDist < minDist || Abs(AngDiff(points[prevIdx].heading, v.heading)) < maxHeadingDiff {
            takes := false;
          }
        }
      }
    }

    method Insert(v: Vehicle) returns (status: Status)
      requires Valid()
      modifies this`nextIdx, this`oldestIdx, this`size, this`storedDistance, this`accepted, points
      ensures Valid()
      ensures status == if old(Accepts(v)) then Inserted else Skipped
      ensures Decided(Offer(v, if old(size) == 0 then None else Some(old(Previous())), status == Inserted))
      ensures status == Inserted ==>
        && |accepted| == |old(accepted)| + 1
        && accepted[|accepted| - 1]
           == TakenPoint(Offer(v, if old(size) == 0 then None else Some(old(Previous())), true))
      ensures status == Skipped ==>
        && accepted == old(accepted) && Live() == old(Live()) && points[..] == old(points[..])
      ensures status == Inserted ==>
        && accepted == old(accepted) + [old(Taken(v))]
        && Live() == Store(old(Evicted()), capacity, old(Taken(v)).pointDistance)
        && points[..] == old(points[..])[old(nextIdx) := old(Taken(v))]
      ensures status == Inserted && old(size) >= 1 ==>
        && MakesRoom(old(points[..]), old(Live()), old(Evicted()), distanceLimit, removeOnlyOne)
        && size == (if old(Evicted()).size < capacity then old(Evicted()).size + 1 else capacity)
        && oldestIdx == old(Evicted()).oldest && storedDistance == old(Evicted()).stored + old(Taken(v)).pointDistance
      ensures status == Inserted && old(Accounting()) ==>
        (Accounting() <==> !old(OverwritesOldest()) || (capacity == 1 && old(storedDistance) == 0.0))
    {
      hide Evict, EvictMany, Slot, Walked, AngDiff, Abs, PathWindow.Holds, Decided, TakenPoint, Accepts, MakesRoom;
      ghost var x, room, ring, was := Taken(v), Evicted(), points[..], accepted;
      if Accounting() {
        FirstOrNext(ring, was, Live(), x);
      }
      AcceptsDecides(v);
      var takes, pointDist := Compare(v);
      if !takes {
        return Skipped;
      }
      if size >= 1 {
        MakeRoom();
        storedDistance := storedDistance + pointDist;
      }
      StorePoint(PHData(v.lat, v.lon, v.elevation, v.heading, pointDist));
      assert Live() == Store(room, capacity, pointDist);
      status := Inserted;
    }

    /** The last part of `insert`. */
    method StorePoint(x: PHData)
      requires points.Length == capacity && oldestIdx < capacity && size <= capacity
      requires PathWindow.Holds(points[..], accepted, size) && nextIdx == Slot(|accepted|, capacity)
      modifies this`nextIdx, this`size, this`accepted, points
      ensures Valid() && accepted == old(accepted) + [x] && points[..] == old(points[..])[old(nextIdx) := x]
      ensures size == if old(size) < capacity then old(size) + 1 else old(size)
    {
      hide Slot, PathWindow.Holds;
      ghost var ring, was, room := points[..], accepted, size;
      if size < capacity {
        size := size + 1;
      }
      StoreKeeps(ring, was, room, x, size);
      SlotNext(|was|, capacity);
      points[nextIdx] := x;
      nextIdx := (nextIdx + 1) % capacity;
      accepted := was + [x];
      assert points[..] == ring[Slot(|was|, capacity) := x];
    }

    /** The eviction loop of `insert`, and its variant that drops one point at most. */
    method MakeRoom()
      requires Valid() && size >= 1
      modifies this`oldestIdx, this`size, this`storedDistance
      ensures Live() == old(Evicted()) && PathWindow.Holds(points[..], accepted, size)
      ensures MakesRoom(points[..], old(Live()), Live(), distanceLimit, removeOnlyOne)
    {
      hide MakesRoom;
      EvictMakesRoom(points[..], Live(), distanceLimit, removeOnlyOne);
      if removeOnlyOne {
        if storedDistance >= distanceLimit {
          storedDistance := storedDistance - points[oldestIdx].pointDistance;
          size := size - 1;
          oldestIdx := (oldestIdx + 1) % capacity;
        }
      } else {
        while storedDistance >= distanceLimit && size > 1
          invariant oldestIdx < capacity && 1 <= size <= old(size)
          invariant EvictMany(points[..], Live(), distanceLimit) == EvictMany(points[..], old(Live()), distanceLimit)
          decreases size
        {
          storedDistance := storedDistance - points[oldestIdx].pointDistance;
          size := size - 1;
          oldestIdx := (oldestIdx + 1) % capacity;
        }
      }
    }

    // ---- What keeps the bookkeeping right ----

    /**
     `insert` compares a position with the newest point exactly when the next slot is not the
     first one, or the ring is full. Otherwise it reads another slot.
     */
    lemma ComparedWithNewest()
      requires Valid() && size >= 1
      ensures PrevIdx() == NewestIdx() <==> nextIdx != 0 || size == capacity
      ensures PrevIdx() == NewestIdx() ==> points[PrevIdx()] == accepted[|accepted| - 1]
    {
      SlotNext(|accepted| - 1, capacity);
      NextWraps(Slot(|accepted| - 1, capacity), capacity);
      assert points[..][Slot(|accepted| - 1, capacity)] == accepted[|accepted| - 1];
    }

    /** With the distances in order, no position nearer than the minimum is taken. */
    lemma TakenIsSpaced(v: Vehicle)
      requires Valid() && minDist <= maxDist && Accepts(v) && Spaced(accepted, minDist)
      ensures Spaced(accepted + [Taken(v)], minDist)
    {
    }

    /** The limits are in order, and the ring is long enough for them. */
    predicate Sensible() {
      0.0 < distanceLimit <= capacity as real * minDist && 0.0 < minDist
    }

    /** What every run from construction keeps while the bookkeeping is right. */
    ghost predicate InOrder()
      reads this
    {
      && Accounting() && Spaced(accepted, minDist)
      && PathWindow.Filling(accepted, size, capacity, distanceLimit)
    }

    /** A point taken in order goes over the oldest one exactly when it ends a first filling short of the limit. */
    lemma OverwritesAtFilling()
      requires Valid() && InOrder() && Sensible() && capacity >= 2 && accepted != []
      ensures OverwritesOldest() <==> |accepted| == capacity && FillsShort(accepted, capacity, distanceLimit)
    {
      hide Slot, PathWindow.Holds;
      var n := |accepted|;
      assert accepted[..n] == accepted;
      if OverwritesOldest() {
        OverwriteOnlyWithFirst(accepted, Live(), capacity, distanceLimit, minDist, removeOnlyOne);
      } else if n == capacity && FillsShort(accepted, capacity, distanceLimit) {
        assert accepted == accepted[..n - 1] + [accepted[n - 1]];
        WalkedAppend(accepted[..n - 1], accepted[n - 1], 0);
      }
    }

    /** A point taken keeps the order of a first filling. */
    lemma InsertFills(v: Vehicle)
      requires Valid() && InOrder() && Sensible() && Accepts(v) && minDist <= maxDist
      ensures var s := Store(Evicted(), capacity, Taken(v).pointDistance);
              PathWindow.Filling(accepted + [Taken(v)], s.size, capacity, distanceLimit)
    {
      if size >= 1 {
        FillingKept(points[..], accepted, Live(), distanceLimit, removeOnlyOne, Taken(v));
      } else {
        assert (accepted + [Taken(v)])[..0] == [];
      }
    }

    /**
     Over any run of inserts the bookkeeping stays right, unless the run ends a first filling
     of the ring short of the limit; the bookkeeping is wrong right after that point.
     */
    method InsertAll(vs: seq<Vehicle>) returns (ghost overwrote: bool)
      requires Valid() && InOrder() && Sensible() && minDist <= maxDist && capacity >= 2
      modifies this`nextIdx, this`oldestIdx, this`size, this`storedDistance, this`accepted, points
      ensures Valid() && |accepted| >= old(|accepted|) && accepted[..old(|accepted|)] == old(accepted)
      ensures !overwrote ==> InOrder()
      ensures overwrote <==> old(|accepted|) <= capacity < |accepted| && FillsShort(accepted, capacity, distanceLimit)
      ensures overwrote && |accepted| == capacity + 1 ==> !Accounting()
    {
      hide Slot, Walked, Evict, EvictMany, Spaced, PathWindow.Holds, PathWindow.Filling;
      overwrote := false;
      for i := 0 to |vs|
        invariant Valid() && |accepted| >= old(|accepted|) && accepted[..old(|accepted|)] == old(accepted)
        invariant !overwrote ==> InOrder()
        invariant overwrote <==>
          old(|accepted|) <= capacity < |accepted| && FillsShort(accepted, capacity, distanceLimit)
        invariant overwrote && |accepted| == capacity + 1 ==> !Accounting()
      {
        ghost var was := accepted;
        if !overwrote && Accepts(vs[i]) {
          TakenIsSpaced(vs[i]);
          InsertFills(vs[i]);
          if accepted != [] {
            OverwritesAtFilling();
            overwrote := OverwritesOldest();
          }
        }
        var _ := Insert(vs[i]);
        if |was| >= capacity {
          assert accepted[..capacity] == was[..capacity];
        }
      }
    }

    /**
     In a ring for one point the default policy never drops a point: the distance grows over the
     whole run, and the bookkeeping is wrong from the third point on. The policy that drops one
     point at most keeps it right.
     */
    method InsertAllSingle(vs: seq<Vehicle>)
      requires Valid() && Sensible() && minDist <= maxDist && capacity == 1
      requires accepted == [] && storedDistance == 0.0
      modifies this`nextIdx, this`oldestIdx, this`size, this`storedDistance, this`accepted, points
      ensures Valid() && (!removeOnlyOne ==> storedDistance == Walked(accepted, 0))
      ensures Accounting() <==> |accepted| <= 2 || removeOnlyOne
    {
      hide Slot;
      for i := 0 to |vs|
        invariant Valid() && if removeOnlyOne then Accounting() else storedDistance == Walked(accepted, 0)
        invariant Spaced(accepted, minDist) && (accepted != [] ==> accepted[0].pointDistance == 0.0)
      {
        ghost var was := accepted;
        if Accepts(vs[i]) {
          TakenIsSpaced(vs[i]);
          WalkedAppend(was, Taken(vs[i]), 0);
          if removeOnlyOne && was != [] {
            SingleStored();
          }
        }
        var _ := Insert(vs[i]);
      }
      if !removeOnlyOne {
        SingleAccounts();
      }
    }

    /** The distance of the one live point is that of the first one, or at least the limit. */
    lemma SingleStored()
      requires Valid() && Accounting() && Sensible() && capacity == 1 && Spaced(accepted, minDist) && accepted != []
      requires accepted[0].pointDistance == 0.0
      ensures storedDistance == if |accepted| == 1 then 0.0 else accepted[|accepted| - 1].pointDistance
      ensures |accepted| > 1 ==> storedDistance >= distanceLimit
    {
      assert Walked(accepted, |accepted|) == 0.0;
    }

    lemma SingleAccounts()
      requires Valid() && capacity == 1 && Spaced(accepted, minDist) && minDist > 0.0
      requires storedDistance == Walked(accepted, 0) && (accepted != [] ==> accepted[0].pointDistance == 0.0)
      ensures Accounting() <==> |accepted| <= 2
    {
      var n := |accepted|;
      SlotIsRemainder(n, 1);
      if n > 0 {
        SlotIsRemainder(n - 1, 1);
        WalkedSplit(accepted, n - 1);
        if n > 2 {
          var before := accepted[..n - 1];
          assert before[0] == accepted[0] && before[1] == accepted[1];
          WalkedAtLeast(before, 2, n - 3, 0.0);
        }
      }
    }

    /** The slots and the bookkeeping, with what has been dropped and how far the distance is off. */
    ghost predicate Counted(c: Count)
      reads this, points
    {
      Retains(points[..], accepted) && Drifts(Live(), accepted, capacity, c)
    }

    /** One more point, and what the ring drops for it. */
    lemma InsertCounts(v: Vehicle, c: Count)
      requires Valid() && Accepts(v) && Counted(c)
      ensures var k := size - Evicted().size;
              && c.dropped + k <= |accepted|
              && Retains(points[..][nextIdx := Taken(v)], accepted + [Taken(v)])
              && Drifts(Store(Evicted(), capacity, Taken(v).pointDistance), accepted + [Taken(v)], capacity,
                        Recount(c, accepted, capacity, k))
    {
      hide Walked, Slot, Miscount, Evict;
      StoreRetains(points[..], accepted, Taken(v));
      if size >= 1 {
        InsertDrifts(points[..], accepted, Live(), distanceLimit, removeOnlyOne, Taken(v), c);
      } else {
        StoreDrifts(accepted, Live(), capacity, Taken(v), c);
      }
    }

    /**
     Any run of inserts, whatever the limits and the distance at the start: the stored distance is
     the one walked behind the dropped points, off by what dropped points were miscounted by. As
     long as no point has been overwritten, that is what it was off by at the start.
     */
    method InsertAllCounted(vs: seq<Vehicle>, ghost c0: Count) returns (ghost c: Count, ghost drops: seq<nat>)
      requires Valid() && Counted(c0)
      modifies this`nextIdx, this`oldestIdx, this`size, this`storedDistance, this`accepted, points
      ensures Valid() && Counted(c)
      ensures |accepted| == old(|accepted|) + |drops| && accepted[..old(|accepted|)] == old(accepted)
      ensures capacity > 0 && c == CountAfter(c0, accepted, old(|accepted|), drops, capacity)
      ensures Overwritten(Live(), accepted, c) >= Overwritten(old(Live()), old(accepted), c0) >= 0
      ensures Overwritten(Live(), accepted, c) == 0 ==> c.drift == c0.drift
    {
      hide Retains, Drifts, Evict, Accepts, Taken, Walked, Slot, Recount, CountAfter, PathWindow.Holds;
      c, drops := c0, [];
      StartCount(c0);
      for i := 0 to |vs|
        invariant Valid() && Counted(c) && capacity > 0
        invariant |accepted| == old(|accepted|) + |drops| && accepted[..old(|accepted|)] == old(accepted)
        invariant c == CountAfter(c0, accepted, old(|accepted|), drops, capacity)
        invariant Overwritten(Live(), accepted, c) >= Overwritten(old(Live()), old(accepted), c0) >= 0
        invariant Overwritten(Live(), accepted, c) == 0 ==> c.drift == c0.drift
      {
        ghost var was, takes, k, s := accepted, Accepts(vs[i]), size - Evicted().size, Live();
        ghost var x := Taken(vs[i]);
        if takes {
          InsertCounts(vs[i], c);
        }
        var _ := Insert(vs[i]);
        if takes {
          CountStep(c0, was, x, old(|accepted|), drops, k, capacity);
          OverwrittenStep(c, was, s, k, capacity);
          c, drops := Recount(c, was, capacity, k), drops + [k];
        }
      }
    }

    lemma StartCount(c0: Count)
      requires Counted(c0)
      ensures capacity > 0 && c0.dropped + size <= |accepted|
      ensures CountAfter(c0, accepted, |accepted|, [], capacity) == c0
    {
    }

    /** The points of the positions that were taken, in their order. */
    function TakenPoints(os: seq<Offer>): seq<PHData>
    {
      if os == [] then []
      else
        var front, last := TakenPoints(os[..|os| - 1]), os[|os| - 1];
        if last.taken then front + [TakenPoint(last)] else front
    }

    /**
     Over any run exactly those positions are taken that leave the point they are compared with: the
     others are nearer than the maximum, and nearer than the minimum or within the heading.
     */
    method InsertAllDecided(vs: seq<Vehicle>) returns (ghost os: seq<Offer>)
      requires Valid()
      modifies this`nextIdx, this`oldestIdx, this`size, this`storedDistance, this`accepted, points
      ensures Valid() && |os| == |vs| && accepted == old(accepted) + TakenPoints(os)
      ensures forall i :: 0 <= i < |vs| ==>
        os[i].v == vs[i] && Decided(os[i]) && (os[i].previous == None ==> i == 0 && old(accepted) == [])
    {
      hide Accepts, Taken, Decided, Evicted;
      os := [];
      for i := 0 to |vs|
        invariant Valid() && |os| == i && accepted == old(accepted) + TakenPoints(os)
        invariant i > 0 ==> accepted != []
        invariant forall k :: 0 <= k < i ==>
          os[k].v == vs[k] && Decided(os[k]) && (os[k].previous == None ==> k == 0 && old(accepted) == [])
      {
        PrevFits();
        ghost var previous := if size == 0 then None else Some(Previous());
        ghost var was := accepted;
        var status := Insert(vs[i]);
        ghost var o := Offer(vs[i], previous, status == Inserted);
        assert Decided(o);
        assert (os + [o])[..|os|] == os;
        FirstTaken(o);
        os := os + [o];
        assert status == Inserted ==> accepted == was + [TakenPoint(o)];
      }
    }

    lemma PrevFits()
      requires Valid()
      ensures size >= 1 ==> points.Length == capacity && PrevIdx() < capacity
    {
    }

    lemma FirstTaken(o: Offer)
      requires Decided(o)
      ensures o.previous == None ==> o.taken
    {
    }

    method Clear()
      requires Valid()
      modifies this`nextIdx, this`oldestIdx, this`size, this`accepted
      ensures Valid() && accepted == [] && size == 0
      ensures Accounting() <==> storedDistance == 0.0
    {
      nextIdx, oldestIdx, size := 0, 0, 0;
      accepted := [];
    }

    method SwitchRemoveOnlyOne() returns (r: bool)
      requires Valid()
      modifies this`removeOnlyOne
      ensures Valid() && removeOnlyOne == !old(removeOnlyOne) && r == removeOnlyOne
    {
      if removeOnlyOne {
        removeOnlyOne := false;
      } else {
        removeOnlyOne := true;
      }
      return removeOnlyOne;
    }

    // ---- Iteration ----

    /** The iterator stands where it should after an iteration that began when `start` points had been accepted. */
    ghost predicate InStep(iter: Iterator, start: nat)
      reads iter
    {
      && iter.size <= start
      && (iter.idx <= iter.size && capacity > 0 ==> iter.cyclicIdx == Slot(start - iter.idx, capacity))
    }

    /** How many of the newest points are behind an iterator at the start. */
    function FirstIdx(): nat
      reads this
    {
      if iterateFull then 0 else 1
    }

    /** The slot before `idx` on the ring. */
    function Before(idx: nat): int
      reads this
    {
      if idx == 0 then capacity - 1 else idx - 1
    }

    lemma BeforeIsSlot(j: nat)
      requires capacity > 0 && 0 < j
      ensures Before(Slot(j, capacity)) == Slot(j - 1, capacity)
    {
      SlotNext(j - 1, capacity);
      NextWraps(Slot(j - 1, capacity), capacity);
    }

    lemma LivePoint(j: nat)
      requires Valid() && |accepted| - size <= j < |accepted|
      ensures Slot(j, capacity) < points.Length && points[Slot(j, capacity)] == accepted[j]
    {
    }

    /** The first part of `iterate`, for an iterator that has not been used yet. */
    method Start(iter: Iterator)
      requires Valid()
      modifies iter
      ensures iter.started && iter.size == size && InStep(iter, |accepted|) && iter.idx == FirstIdx()
    {
      if iterateFull {
        iter.cyclicIdx := nextIdx;
        iter.idx := 0;
      } else {
        if accepted != [] {
          BeforeIsSlot(|accepted|);
        }
        iter.cyclicIdx := if nextIdx == 0 then capacity - 1 else nextIdx - 1;
        iter.idx := 1;
      }
      iter.started := true;
      iter.size := size;
    }

    /** What stands in the slot of the `j`-th point: that point, as long as it is live. */
    ghost predicate InSlot(j: int, p: PHData)
      reads this, points
    {
      0 <= j && 0 < capacity == points.Length ==>
        && p == points[Slot(j, capacity)]
        && (size <= |accepted| && |accepted| - size <= j < |accepted| ==> p == accepted[j])
    }

    lemma ReadSlot(j: nat)
      requires Valid()
      ensures Slot(j, capacity) < points.Length && InSlot(j, points[Slot(j, capacity)])
    {
      if |accepted| - size <= j < |accepted| {
        LivePoint(j);
      }
    }

    /** The step back on the ring. */
    method PrevSlot(idx: nat) returns (prev: nat)
      requires Valid()
      ensures prev == Before(idx)
    {
      if idx == 0 {
        prev := capacity - 1;
      } else {
        prev := idx - 1;
      }
    }

    /**
     Hands out the next older point. The point after that is handed out ahead as well, except
     that the last point never is. The iteration began when `start` points had been accepted, and
     inserts may have been made since: a point that is still live is handed out in any case.
     */
    method Iterate(iter: Iterator, ghost start: nat) returns (status: Status, next: Peek)
      requires Valid() && if iter.started then InStep(iter, start) else start == |accepted|
      modifies iter
      ensures iter.started && InStep(iter, start) && iter.size == if old(iter.started) then old(iter.size) else size
      ensures var k := if old(iter.started) then old(iter.idx) else FirstIdx();
              if k < iter.size then
                && status == ContinueIteration && iter.idx == k + 1
                && InSlot(start - 1 - k, iter.data)
                && (next.Ahead? <==> k + 2 < iter.size) && (next.Ahead? ==> InSlot(start - 2 - k, next.point))
              else status == TerminateIteration && iter.idx == k && next == Nothing
    {
      hide Slot, PathWindow.Holds, InSlot, Before;
      next := Nothing;
      if !iter.started {
        Start(iter);
      }
      if iter.idx < iter.size {
        ghost var j := start - iter.idx;
        BeforeIsSlot(j);
        ReadSlot(j - 1);
        iter.cyclicIdx := PrevSlot(iter.cyclicIdx);
        iter.idx := iter.idx + 1;
        iter.data := points[iter.cyclicIdx];
        if iter.idx < iter.size - 1 {
          BeforeIsSlot(j - 1);
          ReadSlot(j - 2);
          var nextIdx := PrevSlot(iter.cyclicIdx);
          next := Ahead(points[nextIdx]);
        }
        status := ContinueIteration;
      } else {
        status := TerminateIteration;
      }
    }

    /**
     Iterating to the end gives the live points, newest first, each once, without the newest
     one unless `iterateFull` is set; the live points are the last `size` accepted ones.
     */
    method Collect() returns (ps: seq<PHData>)
      requires Valid()
      ensures |ps| == if FirstIdx() < size then size - FirstIdx() else 0
      ensures forall k :: 0 <= k < |ps| ==> ps[k] == accepted[|accepted| - 1 - FirstIdx() - k]
      ensures |ps| == if iterateFull || size == 0 then size else size - 1
      ensures forall k :: 0 <= k < |ps| ==> ps[k] == accepted[|accepted| - (if iterateFull then 1 else 2) - k]
    {
      hide Slot, PathWindow.Holds, InStep;
      ps := [];
      var iter := new Iterator();
      ghost var start := |accepted|;
      var status, _ := Iterate(iter, start);
      while status != TerminateIteration
        invariant iter.started && InStep(iter, start) && iter.size == size && fresh(iter)
        invariant status == ContinueIteration || status == TerminateIteration
        invariant status == ContinueIteration ==>
          && iter.idx == FirstIdx() + |ps| + 1 <= size && iter.data == accepted[|accepted| - iter.idx]
        invariant status == TerminateIteration ==> |ps| == if FirstIdx() < size then size - FirstIdx() else 0
        invariant forall k :: 0 <= k < |ps| ==> ps[k] == accepted[|accepted| - 1 - FirstIdx() - k]
        decreases if status == TerminateIteration then 0 else 1 + size - iter.idx
      {
        ps := ps + [iter.data];
        var peek;
        status, peek := Iterate(iter, start);
      }
    }
  }

  /** The next count, as the last step of a run. */
  lemma CountStep(c0: Count, was: seq<PHData>, x: PHData, first: nat, drops: seq<nat>, k: nat, cap: nat)
    requires 0 < cap && first + |drops| == |was|
    requires CountAfter(c0, was, first, drops, cap).dropped + k <= |was|
    ensures CountAfter(c0, was + [x], first, drops + [k], cap)
         == Recount(CountAfter(c0, was, first, drops, cap), was, cap, k)
  {
    hide Recount;
    assert (drops + [k])[..|drops|] == drops;
    assert (was + [x])[..|was|] == was;
    SameCount(c0, was, x, first, drops, cap);
  }

  lemma {:induction false} SameCount(c0: Count, was: seq<PHData>, x: PHData, first: nat, drops: seq<nat>, cap: nat)
    requires 0 < cap && first + |drops| <= |was|
    ensures CountAfter(c0, was + [x], first, drops, cap) == CountAfter(c0, was, first, drops, cap)
    decreases |drops|
  {
    hide Recount;
    if drops != [] {
      var n := first + |drops| - 1;
      SameCount(c0, was, x, first, drops[..|drops| - 1], cap);
      assert (was + [x])[..n] == was[..n];
    }
  }

  /** A point is overwritten, or none; while none has been, nothing is miscounted. */
  lemma OverwrittenStep(c: Count, was: seq<PHData>, s: Span, k: nat, cap: nat)
    requires 0 < cap && k <= s.size <= cap && c.dropped + s.size <= |was|
    ensures Overwritten(s, was, c) == 0 ==> Recount(c, was, cap, k) == Count(c.dropped + k, c.drift)
  {
    if Overwritten(s, was, c) == 0 {
      NoMiscount(c, was, cap, k);
    }
  }

  /** Any run of inserts from construction, whatever the distance at the start. */
  method FreshRunCounted(distance: Distance, distanceLimit: real, minDist: real, maxDist: real, maxHeadingDiff: real,
                         uninitialised: real, blank: PHData, vs: seq<Vehicle>)
    returns (h: PathHistory, ghost c: Count, ghost drops: seq<nat>)
    requires distanceLimit > 0.0 && minDist > 0.0
    ensures fresh(h) && h.Valid() && h.Counted(c) && h.capacity > 0 && |drops| == |h.accepted|
    ensures c == CountAfter(Count(0, uninitialised), h.accepted, 0, drops, h.capacity)
    ensures Overwritten(h.Live(), h.accepted, c) == 0 ==>
              h.storedDistance == Walked(h.accepted, |h.accepted| - h.size) + uninitialised
  {
    hide Retains, Slot, Walked, CountAfter;
    h := new PathHistory(distance, distanceLimit, minDist, maxDist, maxHeadingDiff, uninitialised, blank);
    NothingRetained(h.points[..], uninitialised);
    assert h.Counted(Count(0, uninitialised));
    c, drops := h.InsertAllCounted(vs, Count(0, uninitialised));
    NoneOverwritten(h.Live(), h.accepted, h.capacity, c);
  }

  lemma NoneOverwritten(s: Span, accepted: seq<PHData>, cap: nat, c: Count)
    requires Drifts(s, accepted, cap, c)
    ensures Overwritten(s, accepted, c) == 0 ==> s.stored == Walked(accepted, |accepted| - s.size) + c.drift
  {
  }

  lemma NothingRetained(ring: seq<PHData>, stored: real)
    requires 0 < |ring|
    ensures Retains(ring, []) && Drifts(Span(0, 0, stored), [], |ring|, Count(0, stored))
  {
  }

  /** Any run of inserts from construction, for a ring of two points or more. */
  method FreshRun(distance: Distance, distanceLimit: real, minDist: real, maxDist: real, maxHeadingDiff: real,
                  blank: PHData, vs: seq<Vehicle>) returns (h: PathHistory, ghost overwrote: bool)
    requires 0.0 < minDist <= maxDist && minDist < distanceLimit
    ensures fresh(h) && h.Valid() && h.capacity == Ceil(distanceLimit / minDist) && h.distanceLimit == distanceLimit
    ensures overwrote <==> h.capacity < |h.accepted| && FillsShort(h.accepted, h.capacity, distanceLimit)
    ensures !overwrote ==> h.Accounting()
    ensures overwrote && |h.accepted| == h.capacity + 1 ==> !h.Accounting()
  {
    CapacityPositive(distanceLimit, minDist);
    h := new PathHistory(distance, distanceLimit, minDist, maxDist, maxHeadingDiff, 0.0, blank);
    CapacityAboveOne(distanceLimit, minDist);
    overwrote := h.InsertAll(vs);
  }

  /** Two points one metre apart fill a ring of two that is meant for two metres; the next point goes over the first. */
  method OverwriteReached(blank: PHData) returns (h: PathHistory)
    ensures h.Valid() && h.Accounting() && h.OverwritesOldest() && h.accepted != []
  {
    h := new PathHistory((a, b, c, d) => 1.0, 2.0, 1.0, 1.0, 0.0, 0.0, blank);
    var s1 := h.Insert(Vehicle(0.0, 0.0, 0.0, 0.0));
    assert h.Accounting();
    var s2 := h.Insert(Vehicle(1.0, 0.0, 0.0, 0.0));
  }

  /** Three points far apart in a ring of three: the next one is not compared with the third but with the second. */
  method WrongPointCompared(blank: PHData) returns (h: PathHistory)
    ensures h.Valid() && h.Accounting() && h.size == 2 && |h.accepted| == 3
    ensures h.points[h.PrevIdx()] == h.accepted[1] != h.accepted[2]
  {
    h := new PathHistory((a, b, c, d) => 5.0, 3.0, 1.0, 1.0, 0.0, 0.0, blank);
    var s1 := h.Insert(Vehicle(0.0, 0.0, 0.0, 0.0));
    assert h.Accounting();
    assert h.Live() == Span(0, 1, 0.0) && h.nextIdx == 1 && h.capacity == 3;
    var s2 := h.Insert(Vehicle(1.0, 0.0, 0.0, 0.0));
    assert h.Live() == Span(0, 2, 5.0) && h.nextIdx == 2;
    ghost var first := h.accepted[0];
    assert h.points[..][Slot(0, 3)] == first;
    var s3 := h.Insert(Vehicle(2.0, 0.0, 0.0, 0.0));
  }

  lemma CapacityAboveOne(limit: real, step: real)
    requires 0.0 < step < limit
    ensures Ceil(limit / step) >= 2
  {
    CapacityPositive(limit, step);
    AboveOne(Ceil(limit / step), limit, step);
  }

  lemma AboveOne(n: int, limit: real, step: real)
    requires 0.0 < step < limit <= n as real * step
    ensures n >= 2
  {
  }

  lemma CapacityPositive(limit: real, step: real)
    requires limit > 0.0 && step > 0.0
    ensures Ceil(limit / step) >= 1
    ensures Ceil(limit / step) as real * step >= limit
  {
    var r, c := limit / step, Ceil(limit / step);
    assert limit == r * step;
    assert r > 0.0;
    assert c as real >= r;
    assert (c as real - r) * step >= 0.0;
  }
}

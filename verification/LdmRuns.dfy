/** Any sequence of operations on the two-level map does what it would do on one map. */
module LdmRuns {
  import opened LdmFlat
  import opened LdmMap
  import opened MachineWords

  datatype Op =
    | Insert(veh: VehicleData)
    | Remove(stationID: nat)
    | Lookup(stationID: nat)
    | Clean(now: nat, limit: real)
    | Clear

  datatype Result = Returned(status: Status) | Found(data: Option<Entry>) | Nothing

  function StepState(m: Flat, op: Op): Flat {
    match op
    case Insert(veh) => Inserted(m, veh)
    case Remove(id) => Removed(m, id)
    case Lookup(_) => m
    case Clean(now, limit) => Cleaned(m, now, limit)
    case Clear => map[]
  }

  function StepResult(m: Flat, op: Op): Result {
    match op
    case Insert(veh) => Returned(InsertStatus(m, veh))
    case Remove(id) => Returned(RemoveStatus(m, id))
    case Lookup(id) => Found(LookedUp(m, id))
    case _ => Nothing
  }

  /** The map after the first `n` operations. */
  function StateAfter(ops: seq<Op>, n: nat): Flat
    requires n <= |ops|
  {
    if n == 0 then map[] else StepState(StateAfter(ops, n - 1), ops[n - 1])
  }

  /** Every station that is removed while it is there has an identifier of at most 16 bits. */
  ghost predicate RemovesShort(ops: seq<Op>) {
    forall i :: 0 <= i < |ops| && ops[i].Remove? && Id(ops[i].stationID) in StateAfter(ops, i) ==>
      Id(ops[i].stationID) < TWO_16
  }

  // ---- What the database does ----

  /** The entries and the cardinality of the two-level map. */
  datatype Contents = Contents(m: Flat, card: nat)

  /** The station is there, but its key is cut off: it is counted down and not removed. */
  predicate Misses(m: Flat, op: Op) {
    op.Remove? && Id(op.stationID) in m && Id(op.stationID) >= TWO_16
  }

  predicate Full(c: Contents, op: Op) {
    op.Insert? && c.card == TWO_64 - 1
  }

  function RealState(c: Contents, op: Op): Contents {
    if Full(c, op) then c
    else if Misses(c.m, op) then Contents(c.m, Wrap64(c.card - 1))
    else
      var m' := StepState(c.m, op);
      match op
      case Clear => Contents(m', 0)
      case Insert(_) => Contents(m', c.card + |m'| - |c.m|)
      case _ => Contents(m', Wrap64(c.card - (|c.m| - |m'|)))
  }

  function RealResult(c: Contents, op: Op): Result {
    if Full(c, op) then Returned(MapFull) else StepResult(c.m, op)
  }

  /** The entries and the cardinality after the first `n` operations on a new database. */
  function RealAfter(ops: seq<Op>, n: nat): Contents
    requires n <= |ops|
  {
    if n == 0 then Contents(map[], 0) else RealState(RealAfter(ops, n - 1), ops[n - 1])
  }

  lemma SizeAfter(m: Flat, op: Op)
    ensures op.Insert? ==> |m| <= |StepState(m, op)| <= |m| + 1
    ensures op.Insert? ==> (InsertStatus(m, op.veh) == Ok <==> |StepState(m, op)| == |m| + 1)
    ensures op.Remove? && Id(op.stationID) in m ==> |StepState(m, op)| == |m| - 1
    ensures op.Remove? && Id(op.stationID) !in m ==> StepState(m, op) == m
  {
    match op {
      case Insert(veh) => InsertedSize(m, veh);
      case Remove(id) =>
        if Id(id) in m {
          RemovedSize(m, id);
        } else {
          assert Removed(m, id) == m;
        }
      case _ =>
    }
  }

  /** An insertion: its entry, the count and the result. */
  lemma InsertMeans(c: Contents, veh: VehicleData)
    ensures var c', r, id := RealState(c, Insert(veh)), RealResult(c, Insert(veh)), Id(veh.stationID);
      if c.card == TWO_64 - 1 then c' == c && r == Returned(MapFull)
      else
        && r == Returned(if id in c.m then Updated else Ok) && c'.card == (if id in c.m then c.card else c.card + 1)
        && c'.m == c.m[id := Entry(veh, if id in c.m then c.m[id].history + [veh] else [veh])]
  {
    hide Id;
    SizeAfter(c.m, Insert(veh));
    assert [] + [veh] == [veh];
  }

  /** A removal: it takes out short identifiers only, but counts all that are there. */
  lemma RemoveMeans(c: Contents, stationID: nat)
    requires c.card < TWO_64
    ensures var c', r, id := RealState(c, Remove(stationID)), RealResult(c, Remove(stationID)), Id(stationID);
      if id !in c.m then c' == c && r == Returned(ItemNotFound)
      else
        && r == Returned(Ok) && c'.card == (if c.card == 0 then TWO_64 - 1 else c.card - 1)
        && c'.m == (if id < 0x1_0000 then map x | x in c.m && x != id :: c.m[x] else c.m)
  {
    hide Id, Wrap64, Removed;
    SizeAfter(c.m, Remove(stationID));
    RemovedIs(c.m, stationID);
    OneLess(c.card);
    assert Wrap64(c.card - 0) == c.card by { WrapSmall(c.card); }
  }

  lemma RemovedIs(m: Flat, stationID: nat)
    ensures Removed(m, stationID) == map x | x in m && x != Id(stationID) :: m[x]
  {
  }

  lemma OneLess(card: nat)
    requires card < TWO_64
    ensures Wrap64(card - 1) == if card == 0 then TWO_64 - 1 else card - 1
  {
  }

  /** The other operations: what is found, what is cleaned, and that everything is cleared. */
  lemma OthersMean(c: Contents, stationID: nat, now: nat, limit: real)
    requires c.card < TWO_64
    ensures RealState(c, Lookup(stationID)) == c
    ensures RealResult(c, Lookup(stationID))
         == Found(if Id(stationID) in c.m then Some(c.m[Id(stationID)]) else None)
    ensures RealState(c, Clear) == Contents(map[], 0)
    ensures var c' := RealState(c, Clean(now, limit));
      && c'.m == (map id | id in c.m && !(Age(c.m[id], now) > limit) :: c.m[id])
      && (c'.card + |c.m| - |c'.m| - c.card) % TWO_64 == 0
  {
    hide Id, Age;
  }

  /** Each operation on any two-level map. */
  method Perform(db: LdmMap, op: Op) returns (r: Result)
    requires db.Valid()
    modifies db
    ensures db.Valid()
    ensures var c := Contents(old(db.Flat()), old(db.card));
            Contents(db.Flat(), db.card) == RealState(c, op) && r == RealResult(c, op)
  {
    hide FlatOf, Id, Cleaned, Inserted, Removed, Wrap64;
    ghost var m := db.Flat();
    SizeAfter(m, op);
    WrapSmall(db.card);
    match op {
      case Insert(veh) =>
        var status := db.Insert(veh);
        r := Returned(status);
      case Remove(id) =>
        var status := db.Remove(id);
        r := Returned(status);
      case Lookup(id) =>
        var _, data := db.Lookup(id);
        r := Found(data);
      case Clean(now, limit) =>
        var calls := db.DeleteOlderThanAndExecute(now, limit);
        CleanEnd(m, m.Keys, now, limit);
        r := Nothing;
      case Clear =>
        db.Clear();
        r := Nothing;
    }
  }

  /** The results are those of the steps. */
  ghost predicate Agrees(results: seq<Result>, ops: seq<Op>, n: nat) {
    n <= |ops| && |results| == n && forall i :: 0 <= i < n ==> results[i] == RealResult(RealAfter(ops, i), ops[i])
  }

  lemma AgreesStep(results: seq<Result>, ops: seq<Op>, n: nat, r: Result)
    requires n < |ops| && Agrees(results, ops, n) && r == RealResult(RealAfter(ops, n), ops[n])
    ensures Agrees(results + [r], ops, n + 1)
  {
  }

  /** Any sequence of operations on a new database. */
  method Replay(ops: seq<Op>) returns (db: LdmMap, results: seq<Result>)
    ensures fresh(db) && db.Valid()
    ensures Contents(db.Flat(), db.card) == RealAfter(ops, |ops|) && Agrees(results, ops, |ops|)
  {
    hide FlatOf, Id, RealState, RealResult, Keys16, Keyed, Agrees;
    db := new LdmMap();
    results := [];
    AgreesNone(ops);
    assert Contents(map[], 0) == RealAfter(ops, 0);
    for i := 0 to |ops|
      invariant fresh(db) && db.Valid() && Contents(db.Flat(), db.card) == RealAfter(ops, i)
      invariant Agrees(results, ops, i)
    {
      var r := Perform(db, ops[i]);
      AgreesStep(results, ops, i, r);
      results := results + [r];
    }
  }

  lemma AgreesNone(ops: seq<Op>)
    ensures Agrees([], ops, 0)
  {
  }

  // ---- When it is one map ----

  /** After `n` operations the database is one map, and the cardinality is its size. */
  ghost predicate IsOneMap(ops: seq<Op>, n: nat)
    requires n <= |ops|
  {
    RealAfter(ops, n) == Contents(StateAfter(ops, n), |StateAfter(ops, n)|)
  }

  lemma {:induction false} StateBounded(ops: seq<Op>, n: nat)
    requires n <= |ops|
    ensures Bounded(StateAfter(ops, n))
  {
    if n > 0 {
      StateBounded(ops, n - 1);
    }
  }

  /** From one map on, an operation does what it does to one map exactly when it removes no long identifier. */
  lemma StepIsOneMap(ops: seq<Op>, n: nat)
    requires n < |ops| && IsOneMap(ops, n)
    ensures IsOneMap(ops, n + 1) <==> !Misses(StateAfter(ops, n), ops[n])
    ensures !Misses(StateAfter(ops, n), ops[n]) ==>
              RealResult(RealAfter(ops, n), ops[n]) == StepResult(StateAfter(ops, n), ops[n])
  {
    hide Id, Inserted, Cleaned;
    var m, op := StateAfter(ops, n), ops[n];
    StateBounded(ops, n);
    NeverFull(m);
    SizeAfter(m, op);
    if Misses(m, op) {
      assert Id(op.stationID) !in StepState(m, op);
    } else {
      StateBounded(ops, n + 1);
      NeverFull(StepState(m, op));
      WrapSmall(|StepState(m, op)|);
    }
  }

  /**
   The database is one map throughout a run, with its size as cardinality and with all its results,
   exactly when every station that is removed while it is there has an identifier of at most 16 bits.
   */
  lemma OneMapIffShort(ops: seq<Op>)
    ensures (forall n :: 0 <= n <= |ops| ==> IsOneMap(ops, n)) <==> RemovesShort(ops)
    ensures RemovesShort(ops) ==>
              forall n :: 0 <= n < |ops| ==>
                RealResult(RealAfter(ops, n), ops[n]) == StepResult(StateAfter(ops, n), ops[n])
  {
    hide Id, StepState, StepResult, RealState, RealResult, RealAfter, StateAfter, IsOneMap;
    if RemovesShort(ops) {
      OneMapWhileShort(ops, |ops|);
    } else {
      var i :| 0 <= i < |ops| && Misses(StateAfter(ops, i), ops[i]);
      if IsOneMap(ops, i) {
        StepIsOneMap(ops, i);
      }
    }
  }

  lemma {:induction false} OneMapWhileShort(ops: seq<Op>, n: nat)
    requires n <= |ops| && RemovesShort(ops)
    ensures forall i :: 0 <= i <= n ==> IsOneMap(ops, i)
    ensures forall i :: 0 <= i < n ==> RealResult(RealAfter(ops, i), ops[i]) == StepResult(StateAfter(ops, i), ops[i])
  {
    hide Id, StepState, StepResult, RealState, RealResult;
    if n > 0 {
      OneMapWhileShort(ops, n - 1);
      StepIsOneMap(ops, n - 1);
    }
  }
}

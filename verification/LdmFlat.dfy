/** The vehicle database as its users see it: one map from station identifiers to entries. */
module LdmFlat {

  import opened MachineWords

  /** The fields of `vehicleData_t` that the modelled code reads or decides on. */
  datatype VehicleData = VehicleData(
    stationID: nat, lat: real, lon: real, timestampUs: nat, gnTimestamp: nat, stationType: nat,
    exteriorLights: Option<nat>)

  /** The newest data of a station, and all the data handed to its path history since it was inserted. */
  datatype Entry = Entry(vehData: VehicleData, history: seq<VehicleData>)

  type Flat = map<nat, Entry>

  /** The identifier the database goes by: the low 32 bits. */
  function Id(stationID: nat): (id: nat)
    ensures id < TWO_32
  {
    stationID % TWO_32
  }

  datatype Status = Ok | Updated | ItemNotFound | MapFull

  // ---- The operations ----

  function InsertEntry(m: Flat, veh: VehicleData): Entry {
    var id := Id(veh.stationID);
    Entry(veh, (if id in m then m[id].history else []) + [veh])
  }

  function Inserted(m: Flat, veh: VehicleData): Flat {
    m[Id(veh.stationID) := InsertEntry(m, veh)]
  }

  function InsertStatus(m: Flat, veh: VehicleData): Status {
    if Id(veh.stationID) in m then Updated else Ok
  }

  function Removed(m: Flat, stationID: nat): Flat {
    m - {Id(stationID)}
  }

  function RemoveStatus(m: Flat, stationID: nat): Status {
    if Id(stationID) in m then Ok else ItemNotFound
  }

  function LookedUp(m: Flat, stationID: nat): Option<Entry> {
    if Id(stationID) in m then Some(m[Id(stationID)]) else None
  }

  /** The age the cleaner computes: a difference of 64-bit numbers, in milliseconds. */
  function Age(e: Entry, now: nat): real {
    Wrap64(now - e.vehData.timestampUs) as real / 1000.0
  }

  predicate TooOld(e: Entry, now: nat, limit: real) {
    Age(e, now) > limit
  }

  function Cleaned(m: Flat, now: nat, limit: real): Flat {
    map id | id in m && !TooOld(m[id], now, limit) :: m[id]
  }

  // ---- Laws ----

  /** The age is the true one unless the entry is from the future; then it is more than 584542 years less the lead. */
  lemma AgeIsTrue(e: Entry, now: nat)
    requires now < TWO_64 && e.vehData.timestampUs < TWO_64
    ensures Age(e, now) == (now - e.vehData.timestampUs) as real / 1000.0 <==> e.vehData.timestampUs <= now
    ensures e.vehData.timestampUs > now ==> Age(e, now) == (TWO_64 - (e.vehData.timestampUs - now)) as real / 1000.0
  {
  }

  /** The age as it is meant, negative for an entry from the future. */
  function TrueAge(e: Entry, now: nat): real {
    (now - e.vehData.timestampUs) as real / 1000.0
  }

  function CleanedTruly(m: Flat, now: nat, limit: real): Flat {
    map id | id in m && TrueAge(m[id], now) <= limit :: m[id]
  }

  /** An entry from the future, and a limit between its true age and the computed one. */
  predicate Misjudged(e: Entry, now: nat, limit: real) {
    var lead := e.vehData.timestampUs - now;
    lead > 0 && (-lead) as real / 1000.0 <= limit < (TWO_64 - lead) as real / 1000.0
  }

  /**
   The cleaner leaves exactly the entries whose true age is within the limit, unless there is an
   entry from the future that is within it: such an entry is removed.
   */
  lemma CleanedByTrueAge(m: Flat, now: nat, limit: real)
    requires now < TWO_64 && forall id :: id in m ==> m[id].vehData.timestampUs < TWO_64
    ensures Cleaned(m, now, limit) == CleanedTruly(m, now, limit)
       <==> forall id :: id in m ==> !Misjudged(m[id], now, limit)
    ensures forall id :: id in m && m[id].vehData.timestampUs <= now ==>
              (id in Cleaned(m, now, limit) <==> id in CleanedTruly(m, now, limit))
    ensures forall id :: id in m && Misjudged(m[id], now, limit) ==> id !in Cleaned(m, now, limit)
  {
    hide Age, Misjudged, TrueAge;
    forall id | id in m
      ensures (Age(m[id], now) > limit) == (TrueAge(m[id], now) > limit) <==> !Misjudged(m[id], now, limit)
      ensures Misjudged(m[id], now, limit) ==> Age(m[id], now) > limit && m[id].vehData.timestampUs > now
    {
      OneJudged(m[id], now, limit);
    }
    if id :| id in m && Misjudged(m[id], now, limit) {
      assert id in CleanedTruly(m, now, limit) && id !in Cleaned(m, now, limit);
    }
  }

  lemma OneJudged(e: Entry, now: nat, limit: real)
    requires now < TWO_64 && e.vehData.timestampUs < TWO_64
    ensures (Age(e, now) > limit) == (TrueAge(e, now) > limit) <==> !Misjudged(e, now, limit)
    ensures Misjudged(e, now, limit) ==> Age(e, now) > limit && e.vehData.timestampUs > now
  {
    AgeIsTrue(e, now);
  }

  lemma {:induction false} SmallSet(s: set<nat>, n: nat)
    requires forall x :: x in s ==> x < n
    ensures |s| <= n
  {
    if n == 0 {
      assert s == {};
    } else {
      SmallSet(s - {n - 1}, n - 1);
    }
  }

  /** Every identifier is below 2^32. */
  ghost predicate Bounded(m: Flat) {
    forall id :: id in m ==> id < TWO_32
  }

  /** The database can never be full. */
  lemma NeverFull(m: Flat)
    requires Bounded(m)
    ensures |m| <= TWO_32 < TWO_64 - 1
  {
    SmallSet(m.Keys, TWO_32);
    assert |m| == |m.Keys|;
  }

  /** The entry of the station has the new data, added to the history it had; all others are as they were. */
  lemma InsertedEntries(m: Flat, veh: VehicleData)
    ensures var id, m' := Id(veh.stationID), Inserted(m, veh);
            && m'.Keys == m.Keys + {id} && m'[id].vehData == veh
            && m'[id].history == (if id in m then m[id].history + [veh] else [veh])
            && forall other :: other in m && other != id ==> m'[other] == m[other]
  {
  }

  /** The entry of the station is gone; all others are as they were. */
  lemma RemovedEntries(m: Flat, stationID: nat)
    ensures var m' := Removed(m, stationID);
            m'.Keys == m.Keys - {Id(stationID)} && forall other :: other in m' ==> m'[other] == m[other]
  {
  }

  lemma InsertedSize(m: Flat, veh: VehicleData)
    ensures |Inserted(m, veh)| == if Id(veh.stationID) in m then |m| else |m| + 1
  {
  }

  lemma RemovedSize(m: Flat, stationID: nat)
    requires Id(stationID) in m
    ensures |Removed(m, stationID)| == |m| - 1
  {
  }

  // ---- Cleaning, entry by entry ----

  /** The map once the entries in `seen` have been looked at. */
  function CleanedWithin(m: Flat, seen: set<nat>, now: nat, limit: real): Flat {
    map id | id in m && !(id in seen && TooOld(m[id], now, limit)) :: m[id]
  }

  /** The callback was called exactly once for each entry that was removed, with its station identifier. */
  ghost predicate CalledOnce(calls: seq<nat>, m: Flat, seen: set<nat>, now: nat, limit: real) {
    && (forall i :: 0 <= i < |calls| ==>
          && Id(calls[i]) in m && Id(calls[i]) in seen && TooOld(m[Id(calls[i])], now, limit)
          && calls[i] == m[Id(calls[i])].vehData.stationID)
    && (forall i, j :: 0 <= i < j < |calls| ==> Id(calls[i]) != Id(calls[j]))
    && |calls| + |CleanedWithin(m, seen, now, limit)| == |m|
  }

  lemma CleanedStep(m: Flat, seen: set<nat>, id: nat, now: nat, limit: real)
    requires id in m && id !in seen
    ensures var c, c' := CleanedWithin(m, seen, now, limit), CleanedWithin(m, seen + {id}, now, limit);
            && id in c && c[id] == m[id]
            && c' == (if TooOld(m[id], now, limit) then c - {id} else c)
            && |c'| == (if TooOld(m[id], now, limit) then |c| - 1 else |c|)
  {
    hide Id, TooOld;
    var c, c' := CleanedWithin(m, seen, now, limit), CleanedWithin(m, seen + {id}, now, limit);
    if TooOld(m[id], now, limit) {
      assert c' == c - {id};
      assert c'.Keys == c.Keys - {id};
      assert |c'| == |c'.Keys| && |c| == |c.Keys|;
    } else {
      assert c' == c;
    }
  }

  /** One more entry is looked at. */
  lemma CleanStep(m: Flat, seen: set<nat>, id: nat, now: nat, limit: real, calls: seq<nat>)
    requires id in m && id !in seen && CalledOnce(calls, m, seen, now, limit)
    requires Id(m[id].vehData.stationID) == id
    ensures var c, c' := CleanedWithin(m, seen, now, limit), CleanedWithin(m, seen + {id}, now, limit);
            && id in c && c[id] == m[id]
            && c' == (if TooOld(m[id], now, limit) then c - {id} else c)
    ensures var calls' := if TooOld(m[id], now, limit) then calls + [m[id].vehData.stationID] else calls;
            CalledOnce(calls', m, seen + {id}, now, limit)
  {
    hide Id, TooOld, CleanedWithin;
    CleanedStep(m, seen, id, now, limit);
  }

  lemma CleanStart(m: Flat, now: nat, limit: real)
    ensures CleanedWithin(m, {}, now, limit) == m && CalledOnce([], m, {}, now, limit)
  {
  }

  lemma CleanEnd(m: Flat, seen: set<nat>, now: nat, limit: real)
    requires m.Keys <= seen
    ensures CleanedWithin(m, seen, now, limit) == Cleaned(m, now, limit)
  {
  }

  // ---- Selection by distance ----

  /** A circle, with the great-circle distance left abstract. */
  datatype Circle = Circle(range: real, lat: real, lon: real, distance: (real, real, real, real) -> real)

  predicate Inside(e: Entry, c: Circle) {
    c.distance(c.lat, c.lon, e.vehData.lat, e.vehData.lon) <= c.range
  }

  /** The entries in the circle, each once, of those that have been looked at. */
  ghost predicate SelectedOnce(sel: seq<Entry>, m: Flat, seen: set<nat>, c: Circle) {
    && (forall i :: 0 <= i < |sel| ==>
          var id := Id(sel[i].vehData.stationID); id in m && id in seen && sel[i] == m[id] && Inside(sel[i], c))
    && (forall i, j :: 0 <= i < j < |sel| ==> Id(sel[i].vehData.stationID) != Id(sel[j].vehData.stationID))
    && (forall id :: id in seen && id in m && Inside(m[id], c) ==> m[id] in sel)
  }

  lemma SelectStep(sel: seq<Entry>, m: Flat, seen: set<nat>, id: nat, c: Circle)
    requires id in m && id !in seen && SelectedOnce(sel, m, seen, c)
    requires Id(m[id].vehData.stationID) == id
    ensures SelectedOnce(if Inside(m[id], c) then sel + [m[id]] else sel, m, seen + {id}, c)
  {
  }
}

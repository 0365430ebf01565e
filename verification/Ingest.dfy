/** What the AMQP client does with a received CAM: area gate, age check, database update, trigger gate. */
module Ingest {
  import opened AgeCheck
  import opened LdmFlat
  import opened LdmMap
  import opened MachineWords

  /** The options the decisions depend on. `logging` is set when a log file name is given. */
  datatype Options = Options(
    ageCheck: bool, logging: bool, interopHijack: bool, extLightsHijack: bool, triggerEnabled: bool, crossBorder: bool)

  /** The exterior lights of the low-frequency container. */
  datatype LowFrequency = Absent | Corrupt | Lights(bits: nat)

  datatype DriveDirection = Forward | Backward | Unavailable

  datatype Cam = Cam(
    stationID: nat, lat: real, lon: real, stationType: nat, lowFrequency: LowFrequency, driveDirection: DriveDirection)

  /** Where the timestamp comes from: the GeoNetworking header, or a message property of type long, if there is one. */
  datatype Origin = GeoNetworking(timestamp: nat) | Property(value: int) | NoProperty

  const PASSENGER_CAR: nat := 5
  const SPECIFIC_CATEGORY_VEHICLE_1: nat := 100

  function GnTimestamp(origin: Origin): nat {
    match origin
    case GeoNetworking(ts) => ts
    case Property(v) => Wrap64(v)
    case NoProperty => NO_TIMESTAMP
  }

  /** The turn signals some vehicles send as drive direction, in the place of the exterior lights. */
  function HijackedLights(d: DriveDirection): nat {
    match d
    case Forward => 0
    case Backward => 16
    case Unavailable => 32
  }

  /** `manage_LowfreqContainer`: the lights of the container, or those known already. */
  function KnownLights(m: Flat, cam: Cam): Option<nat> {
    match cam.lowFrequency
    case Lights(b) => Some(b)
    case Corrupt => None
    case Absent => if Id(cam.stationID) in m then m[Id(cam.stationID)].vehData.exteriorLights else None
  }

  function ExteriorLights(m: Flat, cam: Cam, origin: Origin, opts: Options): Option<nat> {
    match origin
    case GeoNetworking(_) => KnownLights(m, cam)
    case Property(_) => if opts.extLightsHijack then Some(HijackedLights(cam.driveDirection)) else KnownLights(m, cam)
    case NoProperty => None
  }

  function StationType(cam: Cam, origin: Origin, opts: Options): nat {
    if origin.GeoNetworking? && opts.interopHijack && cam.stationType == PASSENGER_CAR then SPECIFIC_CATEGORY_VEHICLE_1
    else cam.stationType
  }

  /** The data that is stored. */
  function NewData(m: Flat, cam: Cam, origin: Origin, opts: Options, nowUs: nat): VehicleData {
    VehicleData(cam.stationID, cam.lat, cam.lon, nowUs, GnTimestamp(origin), StationType(cam, origin, opts),
                ExteriorLights(m, cam, origin, opts))
  }

  /** The age check finds the message older than what is stored. */
  predicate FoundOlder(m: Flat, cam: Cam, origin: Origin, opts: Options) {
    && opts.ageCheck && GnTimestamp(origin) != NO_TIMESTAMP
    && Id(cam.stationID) in m && Older(GnTimestamp(origin), m[Id(cam.stationID)].vehData.gnTimestamp)
  }

  /** A trigger is tried for data with exterior lights, inside the internal area or across borders. */
  predicate TriesTrigger(veh: VehicleData, opts: Options, insideInternal: bool) {
    && opts.triggerEnabled && veh.exteriorLights.Some?
    && (opts.crossBorder || insideInternal)
    && (opts.interopHijack ==> veh.stationType == PASSENGER_CAR)
  }

  datatype Outcome = OutsideArea | Discarded | Processed(trigger: Option<VehicleData>)

  method ManageLowfreqContainer(db: LdmMap, cam: Cam) returns (lights: Option<nat>)
    requires db.Valid()
    ensures lights == KnownLights(db.Flat(), cam)
  {
    match cam.lowFrequency {
      case Lights(b) => lights := Some(b);
      case Corrupt => lights := None;
      case Absent =>
        var status, data := db.Lookup(cam.stationID);
        if status == Ok {
          lights := data.value.vehData.exteriorLights;
        } else {
          lights := None;
        }
    }
  }

  /** The fields whose values depend on where the message comes from. */
  method ReadFields(db: LdmMap, cam: Cam, origin: Origin, opts: Options)
    returns (exteriorLights: Option<nat>, stationType: nat, gnTimestamp: nat)
    requires db.Valid()
    ensures exteriorLights == ExteriorLights(db.Flat(), cam, origin, opts)
    ensures stationType == StationType(cam, origin, opts) && gnTimestamp == GnTimestamp(origin)
  {
    hide KnownLights;
    exteriorLights, stationType, gnTimestamp := None, cam.stationType, NO_TIMESTAMP;
    match origin {
      case GeoNetworking(ts) =>
        gnTimestamp := ts;
        exteriorLights := ManageLowfreqContainer(db, cam);
        if opts.interopHijack {
          if cam.stationType == PASSENGER_CAR {
            stationType := SPECIFIC_CATEGORY_VEHICLE_1;
          }
        }
      case Property(v) =>
        gnTimestamp := Wrap64(v);
        if opts.extLightsHijack {
          exteriorLights := Some(HijackedLights(cam.driveDirection));
        } else {
          exteriorLights := ManageLowfreqContainer(db, cam);
        }
      case NoProperty =>
    }
  }

  /** The age check. */
  method CheckAge(db: LdmMap, cam: Cam, gnTimestamp: nat, opts: Options) returns (older: bool)
    requires db.Valid()
    ensures older <==>
      && opts.ageCheck && gnTimestamp != NO_TIMESTAMP && Id(cam.stationID) in db.Flat()
      && Older(gnTimestamp, db.Flat()[Id(cam.stationID)].vehData.gnTimestamp)
  {
    hide Older;
    older := false;
    if opts.ageCheck && gnTimestamp != NO_TIMESTAMP {
      var found, retveh := db.Lookup(cam.stationID);
      if found == Ok {
        older := Older(gnTimestamp, retveh.value.vehData.gnTimestamp);
      }
    }
  }

  /**
   The decisions of `on_message` for a CAM. The return for an old message stands in the branch
   for logging: without a log file it is stored in spite of the check.
   */
  method OnMessage(db: LdmMap, cam: Cam, origin: Origin, opts: Options, isInside: (real, real) -> bool,
                   isInsideInternal: (real, real) -> bool, nowUs: nat) returns (outcome: Outcome)
    requires db.Valid() && cam.stationID < TWO_32
    modifies db
    ensures db.Valid() && (old(db.Counted()) ==> db.Counted())
    ensures outcome == OutsideArea <==> !isInside(cam.lat, cam.lon)
    ensures outcome == Discarded <==>
      && isInside(cam.lat, cam.lon) && opts.logging && opts.ageCheck
      && GnTimestamp(origin) != NO_TIMESTAMP && Id(cam.stationID) in old(db.Flat())
      && Older(GnTimestamp(origin), old(db.Flat())[Id(cam.stationID)].vehData.gnTimestamp)
    ensures !outcome.Processed? ==> db.Flat() == old(db.Flat()) && db.card == old(db.card)
    ensures outcome.Processed? ==>
      var veh := NewData(old(db.Flat()), cam, origin, opts, nowUs);
      && outcome.trigger == (if TriesTrigger(veh, opts, isInsideInternal(cam.lat, cam.lon)) then Some(veh) else None)
      && db.Flat() == if old(db.card) < TWO_64 - 1 then Inserted(old(db.Flat()), veh) else old(db.Flat())
    ensures outcome.Processed? ==>
      (outcome.trigger.Some? <==>
         && opts.triggerEnabled && ExteriorLights(old(db.Flat()), cam, origin, opts).Some?
         && (isInsideInternal(cam.lat, cam.lon) || opts.crossBorder)
         && (opts.interopHijack ==> cam.stationType == 5 && !origin.GeoNetworking?))
    ensures outcome.Processed? && outcome.trigger.Some? ==>
      && outcome.trigger.value.stationID == cam.stationID
      && outcome.trigger.value.lat == cam.lat && outcome.trigger.value.lon == cam.lon
      && outcome.trigger.value.exteriorLights == ExteriorLights(old(db.Flat()), cam, origin, opts)
    ensures outcome.Processed? && old(db.card) < TWO_64 - 1 ==>
      && Id(cam.stationID) in db.Flat()
      && var stored := db.Flat()[Id(cam.stationID)].vehData;
         && stored.stationID == cam.stationID && stored.lat == cam.lat && stored.lon == cam.lon
         && stored.timestampUs == nowUs && stored.gnTimestamp == GnTimestamp(origin)
         && stored.stationType == StationType(cam, origin, opts)
         && stored.exteriorLights == ExteriorLights(old(db.Flat()), cam, origin, opts)
  {
    hide FlatOf, Id, Older, Keyed, Keys16, ExteriorLights, GnTimestamp;
    if !isInside(cam.lat, cam.lon) {
      return OutsideArea;
    }
    var exteriorLights, stationType, gnTimestamp := ReadFields(db, cam, origin, opts);
    var older := CheckAge(db, cam, gnTimestamp, opts);
    if older {
      if opts.logging {
        return Discarded;
      }
    }
    var vehdata := VehicleData(cam.stationID, cam.lat, cam.lon, nowUs, gnTimestamp, stationType, exteriorLights);
    var _ := db.Insert(vehdata);
    outcome := Processed(None);
    if opts.triggerEnabled && vehdata.exteriorLights.Some? {
      if opts.crossBorder || isInsideInternal(cam.lat, cam.lon) {
        if opts.interopHijack {
          if vehdata.stationType == PASSENGER_CAR {
            outcome := Processed(Some(vehdata));
          }
        } else {
          outcome := Processed(Some(vehdata));
        }
      }
    }
  }

  // ---- What the fields are ----

  /** The code a drive direction is sent as. */
  function DriveCode(d: DriveDirection): nat {
    match d
    case Forward => 0
    case Backward => 1
    case Unavailable => 2
  }

  /**
   The lights: from the drive direction, of which code 1 is bit 4 and code 2 is bit 5, if they are
   sent like that; else from the container, or those known before while there is none.
   */
  lemma LightsRead(m: Flat, cam: Cam, origin: Origin, opts: Options)
    ensures var lights := ExteriorLights(m, cam, origin, opts);
            && (origin == NoProperty ==> lights == None)
            && (origin.Property? && opts.extLightsHijack ==>
                  var code := DriveCode(cam.driveDirection); lights == Some(if code == 0 then 0 else Pow2(code + 3)))
            && (origin != NoProperty && !(origin.Property? && opts.extLightsHijack) ==>
                  && (cam.lowFrequency.Lights? ==> lights == Some(cam.lowFrequency.bits))
                  && (cam.lowFrequency.Corrupt? ==> lights == None)
                  && (cam.lowFrequency.Absent? && Id(cam.stationID) !in m ==> lights == None)
                  && (cam.lowFrequency.Absent? && Id(cam.stationID) in m ==>
                        lights == m[Id(cam.stationID)].vehData.exteriorLights))
  {
    hide Id;
    assert Pow2(4) == 16 && Pow2(5) == 32;
  }

  /** The timestamp is that of the header, or the signed property as 64 bits, or the largest number. */
  lemma TimestampRead(origin: Origin)
    ensures origin.GeoNetworking? ==> GnTimestamp(origin) == origin.timestamp
    ensures origin.Property? && 0 <= origin.value < TWO_63 ==> GnTimestamp(origin) == origin.value
    ensures origin.Property? && -TWO_63 <= origin.value < 0 ==> GnTimestamp(origin) == origin.value + TWO_64
    ensures origin == NoProperty ==> GnTimestamp(origin) == 0xFFFF_FFFF_FFFF_FFFF
  {
  }

  /** The station type is kept, but with the interoperability option cars with a GeoNetworking header become 100. */
  lemma TypeRead(cam: Cam, origin: Origin, opts: Options)
    ensures StationType(cam, origin, opts)
         == (if opts.interopHijack && origin.GeoNetworking? && cam.stationType == 5 then 100 else cam.stationType)
  {
  }

  // ---- What follows ----

  /** The database after a message. */
  function Ingested(m: Flat, cam: Cam, origin: Origin, opts: Options, nowUs: nat): Flat {
    if opts.logging && FoundOlder(m, cam, origin, opts) then m
    else Inserted(m, NewData(m, cam, origin, opts, nowUs))
  }

  /**
   With a log file and the age check, what is kept for a known station is the newer timestamp;
   without a log file always the last.
   */
  lemma StoredTimestamp(m: Flat, cam: Cam, origin: Origin, opts: Options, nowUs: nat)
    requires opts.ageCheck && GnTimestamp(origin) != NO_TIMESTAMP && Id(cam.stationID) in m
    ensures var id := Id(cam.stationID); var m' := Ingested(m, cam, origin, opts, nowUs);
            && id in m'
            && m'[id].vehData.gnTimestamp
               == (if opts.logging then Kept(m[id].vehData.gnTimestamp, GnTimestamp(origin)) else GnTimestamp(origin))
  {
  }

  /** Messages of one station leave the entries of all others alone. */
  lemma OthersUntouched(m: Flat, cam: Cam, origin: Origin, opts: Options, nowUs: nat, other: nat)
    requires other != Id(cam.stationID)
    ensures var m' := Ingested(m, cam, origin, opts, nowUs);
            (other in m' <==> other in m) && (other in m ==> m'[other] == m[other])
  {
  }

  /** Lights, once known, stay known while messages come without the low-frequency container. */
  lemma LightsRemembered(m: Flat, cam: Cam, origin: Origin, opts: Options, nowUs: nat)
    requires Id(cam.stationID) in m && cam.lowFrequency == Absent && !opts.extLightsHijack && origin != NoProperty
    ensures var id := Id(cam.stationID);
            id in Ingested(m, cam, origin, opts, nowUs)
            && Ingested(m, cam, origin, opts, nowUs)[id].vehData.exteriorLights == m[id].vehData.exteriorLights
  {
  }

  /** With the interoperability option no message with a GeoNetworking header ever tries a trigger. */
  lemma InteropNeedsBareCam(m: Flat, cam: Cam, origin: Origin, opts: Options, nowUs: nat, insideInternal: bool)
    requires opts.interopHijack && TriesTrigger(NewData(m, cam, origin, opts, nowUs), opts, insideInternal)
    ensures origin.Property? && cam.stationType == PASSENGER_CAR
  {
  }

  /** The first message of a station is stored as it is, and if old ones are not discarded, every message. */
  lemma StoredAsSent(m: Flat, cam: Cam, origin: Origin, opts: Options, nowUs: nat)
    requires Id(cam.stationID) !in m || !(opts.ageCheck && opts.logging)
    ensures var id := Id(cam.stationID); var m' := Ingested(m, cam, origin, opts, nowUs);
            id in m' && m'[id].vehData.gnTimestamp == GnTimestamp(origin)
  {
  }

  // ---- Over a run of messages of all stations, with the cleaner in between ----

  /**
   A message, or a run of the cleaner; `time` is the true generation time of the message, of
   which only the timestamp is sent.
   */
  datatype Event = Message(cam: Cam, origin: Origin, nowUs: nat, time: nat) | Cleaning(now: nat, limit: real)

  /** The message is for the database: it comes from inside the area. */
  predicate Arrives(e: Event, isInside: (real, real) -> bool) {
    e.Message? && isInside(e.cam.lat, e.cam.lon)
  }

  function Handled(m: Flat, e: Event, opts: Options, isInside: (real, real) -> bool): Flat {
    match e
    case Message(cam, origin, nowUs, _) =>
      if isInside(cam.lat, cam.lon) then Ingested(m, cam, origin, opts, nowUs) else m
    case Cleaning(now, limit) => Cleaned(m, now, limit)
  }

  /** The entries at the start, and the events. */
  datatype Run = Run(start: Flat, events: seq<Event>, opts: Options, isInside: (real, real) -> bool)

  /** The database after the first `n` events. */
  function After(run: Run, n: nat): Flat
    requires n <= |run.events|
  {
    if n == 0 then run.start else Handled(After(run, n - 1), run.events[n - 1], run.opts, run.isInside)
  }

  /** One event on a database that counts its entries. */
  method Handle(db: LdmMap, e: Event, opts: Options, isInside: (real, real) -> bool,
                isInsideInternal: (real, real) -> bool)
    requires db.Valid() && db.Counted() && (e.Message? ==> e.cam.stationID < TWO_32)
    modifies db
    ensures db.Valid() && db.Counted() && db.Flat() == Handled(old(db.Flat()), e, opts, isInside)
  {
    hide Id, Older, NewData, Inserted, Cleaned, FlatOf;
    NeverFull(db.Flat());
    match e {
      case Message(cam, origin, nowUs, _) =>
        var _ := OnMessage(db, cam, origin, opts, isInside, isInsideInternal, nowUs);
      case Cleaning(now, limit) =>
        db.DeleteOlderThan(now, limit);
    }
  }

  /** A run of `on_message` and of the cleaner. */
  method HandleAll(db: LdmMap, es: seq<Event>, opts: Options, isInside: (real, real) -> bool,
                   isInsideInternal: (real, real) -> bool)
    requires db.Valid() && db.Counted()
    requires forall i :: 0 <= i < |es| && es[i].Message? ==> es[i].cam.stationID < TWO_32
    modifies db
    ensures db.Valid() && db.Counted() && db.Flat() == After(Run(old(db.Flat()), es, opts, isInside), |es|)
  {
    hide Handled, FlatOf;
    ghost var run := Run(db.Flat(), es, opts, isInside);
    for n := 0 to |es|
      invariant db.Valid() && db.Counted() && db.Flat() == After(run, n)
    {
      Handle(db, es[n], opts, isInside, isInsideInternal);
    }
  }

  /** A message that is found older is discarded. */
  predicate Discards(opts: Options) {
    opts.ageCheck && opts.logging
  }

  /** The `i`-th event is a message of the station, from inside the area. */
  predicate Sends(run: Run, id: nat, i: nat)
    requires i < |run.events|
  {
    var e := run.events[i];
    Arrives(e, run.isInside) && Id(e.cam.stationID) == id
  }

  function Later(a: nat, b: nat): nat {
    if a < b then b else a
  }

  /**
   The true generation time of what is stored for a station after `n` events: the later one if
   old messages are discarded, the last one if not, and none while the station is not there.
   */
  function StoredOf(run: Run, id: nat, first: Option<nat>, n: nat): Option<nat>
    requires n <= |run.events|
  {
    if n == 0 then first
    else
      var e, before := run.events[n - 1], StoredOf(run, id, first, n - 1);
      if Sends(run, id, n - 1) then
        if before.Some? && Discards(run.opts) then Some(Later(before.value, e.time)) else Some(e.time)
      else if id in After(run, n) then before
      else None
  }

  /** The true generation time of the latest message of a station since it came in. */
  function LatestOf(run: Run, id: nat, first: Option<nat>, n: nat): Option<nat>
    requires n <= |run.events|
  {
    if n == 0 then first
    else
      var e, before := run.events[n - 1], LatestOf(run, id, first, n - 1);
      if Sends(run, id, n - 1) then
        if before.Some? then Some(Later(before.value, e.time)) else Some(e.time)
      else if id in After(run, n) then before
      else None
  }

  /** A message carries its timestamp, and if the check decides on it, it is not five minutes off what is stored. */
  ghost predicate TimelyAt(run: Run, id: nat, first: Option<nat>, i: nat)
    requires i < |run.events|
  {
    Sends(run, id, i) ==>
      && GnTimestamp(run.events[i].origin) == Timestamp(run.events[i].time)
      && var before := StoredOf(run, id, first, i);
         Discards(run.opts) && before.Some? ==> -GAP < run.events[i].time - before.value <= GAP
  }

  /** The message is not older than what is stored. */
  ghost predicate NotOlder(run: Run, id: nat, first: Option<nat>, i: nat)
    requires i < |run.events|
  {
    var before := StoredOf(run, id, first, i);
    Sends(run, id, i) && before.Some? ==> before.value <= run.events[i].time
  }

  /** What is stored does not go back with the `i`-th event. */
  ghost predicate NotBack(run: Run, id: nat, first: Option<nat>, i: nat)
    requires i < |run.events|
  {
    var before, after := StoredOf(run, id, first, i), StoredOf(run, id, first, i + 1);
    before.Some? && after.Some? ==> before.value <= after.value
  }

  /** The entry of a station holds the timestamp of a time, or there is no entry. */
  predicate HoldsTime(m: Flat, id: nat, t: Option<nat>) {
    (id in m <==> t.Some?) && (t.Some? ==> m[id].vehData.gnTimestamp == Timestamp(t.value))
  }

  /** A message of the station itself. */
  lemma MessageHolds(m: Flat, e: Event, opts: Options, isInside: (real, real) -> bool, id: nat, t: Option<nat>)
    requires HoldsTime(m, id, t)
    requires Arrives(e, isInside) && Id(e.cam.stationID) == id && GnTimestamp(e.origin) == Timestamp(e.time)
    requires Discards(opts) && t.Some? ==> -GAP < e.time - t.value <= GAP
    ensures HoldsTime(Handled(m, e, opts, isInside), id,
                      if t.Some? && Discards(opts) then Some(Later(t.value, e.time)) else Some(e.time))
  {
    hide Id, Older, Timestamp, Ingested;
    if t.Some? && Discards(opts) {
      StoredTimestamp(m, e.cam, e.origin, opts, e.nowUs);
      CheckRight(e.time, t.value);
    } else {
      StoredAsSent(m, e.cam, e.origin, opts, e.nowUs);
    }
  }

  /** A message of another station, or a cleaning. */
  lemma OthersKeepEntry(m: Flat, e: Event, opts: Options, isInside: (real, real) -> bool, id: nat)
    requires !(Arrives(e, isInside) && Id(e.cam.stationID) == id)
    ensures var m' := Handled(m, e, opts, isInside); id in m' ==> id in m && m'[id] == m[id]
  {
    hide Id, Ingested, TooOld;
    if Arrives(e, isInside) {
      OthersUntouched(m, e.cam, e.origin, opts, e.nowUs, id);
    }
  }

  /** Whatever the options, the entry of a station holds the timestamp of the time that `StoredOf` gives. */
  lemma {:induction false} StoredHolds(run: Run, id: nat, first: Option<nat>, n: nat)
    requires n <= |run.events| && HoldsTime(run.start, id, first)
    requires forall i :: 0 <= i < |run.events| ==> TimelyAt(run, id, first, i)
    ensures HoldsTime(After(run, n), id, StoredOf(run, id, first, n))
  {
    hide Id, Older, Timestamp, Handled, GnTimestamp, Discards;
    if n > 0 {
      StoredHolds(run, id, first, n - 1);
      var e, was := run.events[n - 1], After(run, n - 1);
      assert TimelyAt(run, id, first, n - 1);
      if Sends(run, id, n - 1) {
        MessageHolds(was, e, run.opts, run.isInside, id, StoredOf(run, id, first, n - 1));
      } else {
        OthersKeepEntry(was, e, run.opts, run.isInside, id);
      }
    }
  }

  /** Old messages are discarded, or there are none. */
  ghost predicate NoneOlderStored(run: Run, id: nat, first: Option<nat>) {
    Discards(run.opts) || forall i :: 0 <= i < |run.events| ==> NotOlder(run, id, first, i)
  }

  lemma {:induction false} StoredWhileLatest(run: Run, id: nat, first: Option<nat>, n: nat)
    requires n <= |run.events| && NoneOlderStored(run, id, first)
    ensures StoredOf(run, id, first, n) == LatestOf(run, id, first, n)
  {
    hide After, Sends, Discards;
    if n > 0 {
      StoredWhileLatest(run, id, first, n - 1);
      assert Discards(run.opts) || NotOlder(run, id, first, n - 1);
    }
  }

  /**
   Over any run of messages of all stations, with the cleaner in between, the entry of a station
   holds the timestamp of its latest message since it came in, and never goes back while it
   stays: exactly when old messages are discarded, or no message is older than what is stored.
   */
  lemma RunKeepsLatest(run: Run, id: nat, first: Option<nat>)
    requires HoldsTime(run.start, id, first)
    requires forall i :: 0 <= i < |run.events| ==> TimelyAt(run, id, first, i)
    ensures forall n :: 0 <= n <= |run.events| ==> HoldsTime(After(run, n), id, StoredOf(run, id, first, n))
    ensures NoneOlderStored(run, id, first)
       <==> forall n :: 0 <= n <= |run.events| ==> StoredOf(run, id, first, n) == LatestOf(run, id, first, n)
    ensures NoneOlderStored(run, id, first)
       <==> forall i :: 0 <= i < |run.events| ==> NotBack(run, id, first, i)
  {
    hide After, Sends, Discards, HoldsTime, TimelyAt, NotOlder, NotBack, StoredOf, LatestOf;
    forall n | 0 <= n <= |run.events|
      ensures HoldsTime(After(run, n), id, StoredOf(run, id, first, n))
    {
      StoredHolds(run, id, first, n);
    }
    forall i | 0 <= i < |run.events|
      ensures Discards(run.opts) || NotOlder(run, id, first, i) <==> NotBack(run, id, first, i)
    {
      StepGoesBack(run, id, first, i);
    }
    if NoneOlderStored(run, id, first) {
      forall n | 0 <= n <= |run.events|
        ensures StoredOf(run, id, first, n) == LatestOf(run, id, first, n)
      {
        StoredWhileLatest(run, id, first, n);
      }
    } else {
      var i :| 0 <= i < |run.events| && !NotOlder(run, id, first, i);
      StepGoesBack(run, id, first, i);
    }
  }

  lemma StepGoesBack(run: Run, id: nat, first: Option<nat>, i: nat)
    requires i < |run.events|
    ensures Discards(run.opts) || NotOlder(run, id, first, i) <==> NotBack(run, id, first, i)
    ensures !(Discards(run.opts) || NotOlder(run, id, first, i)) ==>
              StoredOf(run, id, first, i) != LatestOf(run, id, first, i)
              || StoredOf(run, id, first, i + 1) != LatestOf(run, id, first, i + 1)
  {
    hide After, Sends, Discards;
  }

  /** Without a log file, the second of two messages takes the stored time back by a millisecond. */
  lemma GoesBack(cam: Cam, opts: Options) returns (run: Run)
    requires !Discards(opts)
    ensures run.start == map[] && run.opts == opts && |run.events| == 2
    ensures var id := Id(cam.stationID);
            && TimelyAt(run, id, None, 0) && TimelyAt(run, id, None, 1)
            && !NotBack(run, id, None, 1) && !NoneOlderStored(run, id, None)
            && id in After(run, 1) && After(run, 1)[id].vehData.gnTimestamp == 1000
            && id in After(run, 2) && After(run, 2)[id].vehData.gnTimestamp == 999
  {
    hide Id, Discards;
    var id := Id(cam.stationID);
    var a, b := Message(cam, GeoNetworking(1000), 0, 1000), Message(cam, GeoNetworking(999), 1000, 999);
    run := Run(map[], [a, b], opts, (lat, lon) => true);
    assert Sends(run, id, 0) && Sends(run, id, 1);
    assert StoredOf(run, id, None, 1) == Some(1000) && StoredOf(run, id, None, 2) == Some(999);
    assert TimelyAt(run, id, None, 0) && TimelyAt(run, id, None, 1);
    forall i | 0 <= i < |run.events|
      ensures TimelyAt(run, id, None, i)
    {
      assert i == 0 || i == 1;
    }
    StoredHolds(run, id, None, 1);
    StoredHolds(run, id, None, 2);
    assert !NotOlder(run, id, None, 1);
  }

  // ---- A message without a timestamp ----

  ghost predicate HasSent(run: Run, id: nat, n: nat)
    requires n <= |run.events|
  {
    exists i :: 0 <= i < n && Sends(run, id, i)
  }

  /**
   An entry stored without a timestamp: while it stays in the database, messages that carry one
   leave it alone exactly when old messages are discarded. Then it is frozen for good.
   */
  lemma {:induction false} MissingFreezes(run: Run, id: nat, n: nat)
    requires n <= |run.events|
    requires id in run.start && run.start[id].vehData.gnTimestamp == NO_TIMESTAMP
    requires forall i :: 0 <= i < n && Sends(run, id, i) ==> GnTimestamp(run.events[i].origin) < TWO_63
    requires forall i :: 0 <= i <= n ==> id in After(run, i)
    ensures After(run, n)[id] == run.start[id] <==> Discards(run.opts) || !HasSent(run, id, n)
    ensures After(run, n)[id] == run.start[id] <==> After(run, n)[id].vehData.gnTimestamp == NO_TIMESTAMP
  {
    hide Id, Older, Handled, GnTimestamp, Discards;
    if n > 0 {
      MissingFreezes(run, id, n - 1);
      var e, was := run.events[n - 1], After(run, n - 1);
      if Sends(run, id, n - 1) {
        MissingStep(was, e, run.opts, run.isInside);
        assert HasSent(run, id, n);
      } else {
        OthersKeepEntry(was, e, run.opts, run.isInside, id);
        assert HasSent(run, id, n) <==> HasSent(run, id, n - 1);
      }
    }
  }

  lemma MissingStep(m: Flat, e: Event, opts: Options, isInside: (real, real) -> bool)
    requires Arrives(e, isInside) && GnTimestamp(e.origin) < TWO_63 && Id(e.cam.stationID) in m
    ensures var id, m' := Id(e.cam.stationID), Handled(m, e, opts, isInside);
            && id in m'
            && (Discards(opts) && m[id].vehData.gnTimestamp == NO_TIMESTAMP ==> m' == m)
            && (!Discards(opts) ==> m'[id].vehData.gnTimestamp < TWO_63)
  {
    hide Id, Older, GnTimestamp;
    MissingBlocks(GnTimestamp(e.origin));
  }
}

/** The invariant of the trigger protocol, and what follows for every interleaving. */
module TriggerSafety {
  import opened MachineWords
  import opened Sequences
  import opened TriggerProtocol

  predicate ByCallerStep(a: Action) {
    a.Call? || a.Lock? || a.Find? || a.New? || a.Push? || a.Spawn? || a.SetRunning? || a.Unlock?
  }

  lemma MutexCallers(s: State, a: Action)
    requires MutexHeld(s) && Enabled(s, a) && ByCallerStep(a)
    ensures MutexHeld(Apply(s, a))
  {
  }

  lemma MutexThreads(s: State, a: Action)
    requires MutexHeld(s) && Enabled(s, a) && !ByCallerStep(a)
    ensures MutexHeld(Apply(s, a))
  {
  }

  lemma ObjectsCallers(s: State, a: Action)
    requires ObjectsLive(s) && CallersFit(s) && Enabled(s, a) && ByCallerStep(a)
    ensures ObjectsLive(Apply(s, a))
  {
  }

  lemma ObjectsThreads(s: State, a: Action)
    requires ObjectsLive(s) && Enabled(s, a) && !ByCallerStep(a)
    ensures ObjectsLive(Apply(s, a))
  {
  }

  /** The list changes in two steps only. */
  lemma DistinctKept(s: State, a: Action)
    requires NoDup(s.triggered) && CallersFit(s) && Enabled(s, a)
    ensures NoDup(Apply(s, a).triggered)
  {
    if a.Remove? {
      WithoutDistinct(s.triggered, Station(s, a.t));
    }
  }

  lemma {:induction false} WithoutDistinct(l: seq<nat>, x: nat)
    requires NoDup(l)
    ensures NoDup(Without(l, x))
    ensures forall y :: y in Without(l, x) <==> y in l && y != x
  {
    if l != [] {
      var init, last := l[..|l| - 1], l[|l| - 1];
      assert l == init + [last];
      assert last !in init;
      WithoutDistinct(init, x);
    }
  }

  /** Only starting a thread, failing to, and taking a station off the list change the owners. */
  lemma OwnersKept(s: State, a: Action, t: nat)
    requires Enabled(s, a) && ObjectsLive(s) && !a.Spawn? && !a.Remove?
    ensures Owner(Apply(s, a), t) <==> Owner(s, t)
    ensures Owner(s, t) ==> t in s.clients && Station(Apply(s, a), t) == Station(s, t)
  {
  }

  lemma OwnersSpawn(s: State, a: Action, t: nat)
    requires Enabled(s, a) && ObjectsLive(s) && CallersFit(s) && a.Spawn?
    ensures Owner(Apply(s, a), t) <==> Owner(s, t) || t == s.callers[a.c].client
    ensures Station(Apply(s, a), t) == Station(s, t)
    ensures Station(s, s.callers[a.c].client) == s.callers[a.c].station && !Owner(s, s.callers[a.c].client)
    ensures Owner(s, t) ==> Station(s, t) != s.callers[a.c].station
    ensures s.callers[a.c].station in s.triggered
  {
  }

  lemma OwnersRemove(s: State, a: Action, t: nat)
    requires Enabled(s, a) && ObjectsLive(s) && a.Remove?
    ensures Owner(Apply(s, a), t) <==> Owner(s, t) && t != a.t
    ensures Station(Apply(s, a), t) == Station(s, t) && Owner(s, a.t)
  {
  }

  lemma StationsKept(s: State, a: Action)
    requires StationsListed(s) && ObjectsLive(s) && CallersFit(s) && NoDup(s.triggered) && Enabled(s, a)
    ensures StationsListed(Apply(s, a))
  {
    hide Owner, Station, ObjectsLive, CallersFit, Enabled, Apply;
    var s' := Apply(s, a);
    ListKept(s, a);
    forall t, u | Owner(s', t) && Owner(s', u)
      ensures Station(s', t) in s'.triggered
      ensures t != u ==> Station(s', t) != Station(s', u)
    {
      if a.Spawn? {
        OwnersSpawn(s, a, t);
        OwnersSpawn(s, a, u);
      } else if a.Remove? {
        OwnersRemove(s, a, t);
        OwnersRemove(s, a, u);
      } else {
        OwnersKept(s, a, t);
        OwnersKept(s, a, u);
      }
    }
  }

  /** What is on the list after a step. */
  lemma ListKept(s: State, a: Action)
    requires NoDup(s.triggered) && Enabled(s, a)
    ensures !a.Push? && !a.Remove? ==> Apply(s, a).triggered == s.triggered
    ensures a.Push? ==> Apply(s, a).triggered == s.triggered + [s.callers[a.c].station]
    ensures a.Remove? ==> forall y :: y in Apply(s, a).triggered <==> y in s.triggered && y != Station(s, a.t)
  {
    if a.Remove? {
      WithoutDistinct(s.triggered, Station(s, a.t));
    }
  }

  /** Nobody else is in the critical part. */
  lemma OthersOutside(s: State, a: Action, c: nat)
    requires MutexHeld(s) && Enabled(s, a) && c in s.callers
    requires if ByCallerStep(a) then !a.Call? && c != a.c else a.NotifyLock? || a.Remove?
    ensures !Critical(s.callers[c])
  {
    assert Pc(s, c) == s.callers[c];
    if a.Remove? {
      assert s.holder == ByThread(a.t);
    } else if !a.NotifyLock? && !a.Lock? {
      assert Critical(Pc(s, a.c));
    }
  }

  /** The caller that takes a step fits its new place. */
  lemma CallerSteps(s: State, a: Action)
    requires Inv(s) && Enabled(s, a) && ByCallerStep(a) && a.c in Apply(s, a).callers
    ensures CallerFits(Apply(s, a), Apply(s, a).callers[a.c])
  {
    hide MutexHeld, ListOwned, NoDup;
    if a.c in s.callers {
      assert CallerFits(s, s.callers[a.c]);
    }
    if a.Push? {
      var x := s.callers[a.c].station;
      forall t | Owner(Apply(s, a), t)
        ensures Station(Apply(s, a), t) != x
      {
        OwnersKept(s, a, t);
      }
    }
  }

  /** A critical caller fits its place after a step of somebody else. */
  lemma CallerWaits(s: State, a: Action, c: nat)
    requires Inv(s) && Enabled(s, a) && c in s.callers && (ByCallerStep(a) ==> c != a.c)
    ensures c in Apply(s, a).callers && Apply(s, a).callers[c] == s.callers[c]
    ensures CallerFits(Apply(s, a), s.callers[c])
  {
    hide ListOwned, NoDup, StationsListed;
    assert CallerFits(s, s.callers[c]);
    if (ByCallerStep(a) && !a.Call?) || a.NotifyLock? || a.Remove? {
      OthersOutside(s, a, c);
    } else if s.callers[c].Pushed? {
      forall t | Owner(Apply(s, a), t)
        ensures Station(Apply(s, a), t) != s.callers[c].station
      {
        OwnersKept(s, a, t);
      }
    }
  }

  lemma CallersKept(s: State, a: Action)
    requires Inv(s) && Enabled(s, a)
    ensures CallersFit(Apply(s, a))
  {
    hide CallerFits, MutexHeld, ListOwned, NoDup, StationsListed, ObjectsLive;
    var s' := Apply(s, a);
    forall c | c in s'.callers
      ensures CallerFits(s', s'.callers[c])
    {
      if ByCallerStep(a) && c == a.c {
        CallerSteps(s, a);
      } else {
        CallerWaits(s, a, c);
      }
    }
  }

  /** A station on the list stays owned. */
  lemma OwnedKept(s: State, a: Action, x: nat)
    requires Inv(s) && Enabled(s, a) && x in Apply(s, a).triggered
    ensures Owned(Apply(s, a), x)
  {
    hide Owner, Station, ListOwned, NoDup, StationsListed;
    var s' := Apply(s, a);
    ListKept(s, a);
    if a.Push? && x == s.callers[a.c].station {
      assert Critical(Pc(s, a.c));
    } else {
      ListedOwned(s, x);
      if t :| Owner(s, t) && Station(s, t) == x {
        if a.Spawn? {
          OwnersSpawn(s, a, t);
        } else if a.Remove? {
          OwnersRemove(s, a, t);
        } else {
          OwnersKept(s, a, t);
        }
        assert Owner(s', t);
      } else {
        PushingKept(s, a, x);
      }
    }
  }

  lemma ListedOwned(s: State, x: nat)
    requires ListOwned(s) && x in s.triggered
    ensures Owned(s, x)
  {
  }

  /** A station just pushed gets an owner when its thread is started, or fails to. */
  lemma PushingKept(s: State, a: Action, x: nat)
    requires Inv(s) && Enabled(s, a)
    requires s.holder.ByCaller? && Pc(s, s.holder.c).Pushed? && Pc(s, s.holder.c).station == x
    ensures Owned(Apply(s, a), x)
  {
    hide Owner, Station, ListOwned, NoDup, StationsListed;
    var c := s.holder.c;
    assert Critical(Pc(s, c));
    if a.Spawn? && a.c == c {
      OwnersSpawn(s, a, s.callers[c].client);
      assert Owner(Apply(s, a), s.callers[c].client);
    }
  }

  /** Every step keeps the invariant. */
  lemma StepKeeps(s: State, a: Action)
    requires Inv(s) && Enabled(s, a)
    ensures Inv(Apply(s, a))
  {
    hide MutexHeld, NoDup, ObjectsLive, StationsListed, CallersFit, Owned, Apply, Enabled;
    if ByCallerStep(a) {
      MutexCallers(s, a);
      ObjectsCallers(s, a);
    } else {
      MutexThreads(s, a);
      ObjectsThreads(s, a);
    }
    DistinctKept(s, a);
    StationsKept(s, a);
    CallersKept(s, a);
    var s' := Apply(s, a);
    forall i | 0 <= i < |s'.triggered|
      ensures Owned(s', s'.triggered[i])
    {
      OwnedKept(s, a, s'.triggered[i]);
    }
  }

  lemma InitHolds()
    ensures Inv(INIT)
  {
  }

  // ---- Every interleaving ----

  /** The state after the first `n` steps; a step that cannot be taken changes nothing. */
  ghost function StateAt(run: seq<Action>, n: nat): State
    requires n <= |run|
  {
    if n == 0 then INIT
    else
      var s := StateAt(run, n - 1);
      if Enabled(s, run[n - 1]) then Apply(s, run[n - 1]) else s
  }

  lemma {:induction false} RunKeeps(run: seq<Action>, n: nat)
    requires n <= |run|
    ensures Inv(StateAt(run, n))
  {
    hide Inv, Apply, Enabled;
    if n == 0 {
      InitHolds();
    } else {
      RunKeeps(run, n - 1);
      if Enabled(StateAt(run, n - 1), run[n - 1]) {
        StepKeeps(StateAt(run, n - 1), run[n - 1]);
      }
    }
  }

  /**
   In every interleaving: no station has two threads in the request loop, the list has no
   duplicates, and it contains every station whose thread has not yet notified.
   */
  lemma OneThreadPerStation(run: seq<Action>, n: nat)
    requires n <= |run|
    ensures var s := StateAt(run, n);
            && NoDup(s.triggered)
            && (forall t :: t in s.threads && Unnotified(s.threads[t]) ==> Station(s, t) in s.triggered)
            && (forall t, u :: t in s.threads && u in s.threads && t != u && s.threads[t] == s.threads[u] == Looping ==>
                  Station(s, t) != Station(s, u))
  {
    hide StateAt, Station;
    RunKeeps(run, n);
    var s := StateAt(run, n);
    assert StationsListed(s);
    forall t | t in s.threads && Unnotified(s.threads[t])
      ensures Owner(s, t)
    {
    }
  }

  /** No step of any interleaving reads or writes a client that is not on the heap. */
  lemma NoUseAfterDelete(run: seq<Action>, n: nat, a: Action)
    requires n <= |run| && Enabled(StateAt(run, n), a)
    ensures forall id :: id in Accesses(StateAt(run, n), a) ==>
              id in StateAt(run, n).clients && id !in StateAt(run, n).deleted
  {
    hide StateAt, MutexHeld, NoDup, StationsListed, ListOwned;
    RunKeeps(run, n);
    var s := StateAt(run, n);
    if (a.Push? || a.Spawn? || a.SetRunning?) {
      assert CallerFits(s, s.callers[a.c]);
    }
  }

  /**
   A client is deleted only after the `checkAndTrigger` that made it has returned from starting
   its thread and released the mutex.
   */
  lemma DeletedAfterSpawner(run: seq<Action>, n: nat, t: nat, c: nat)
    requires n <= |run| && Enabled(StateAt(run, n), Delete(t))
    ensures !RefersTo(Pc(StateAt(run, n), c), t)
  {
    hide StateAt, MutexHeld, NoDup, StationsListed, ListOwned;
    RunKeeps(run, n);
    var s := StateAt(run, n);
    if c in s.callers {
      assert CallerFits(s, s.callers[c]);
    }
  }

  /** While the mutex is free, the list holds exactly the stations of the owners. */
  lemma ListIsExact(run: seq<Action>, n: nat, x: nat)
    requires n <= |run| && StateAt(run, n).holder.Free?
    ensures x in StateAt(run, n).triggered
       <==> exists t :: Owner(StateAt(run, n), t) && Station(StateAt(run, n), t) == x
  {
    hide StateAt, Owner, Station;
    RunKeeps(run, n);
    if x in StateAt(run, n).triggered {
      ListedOwned(StateAt(run, n), x);
    }
  }

  // ---- Which calls start a client ----

  /** Bit `i` of the lights, counted from the lowest one. */
  predicate Light(lights: bv8, i: nat)
    requires i < 8
  {
    (lights >> i) & 1 == 1
  }

  /** The call asks for a maneuver: all is configured, and the right signal is on, or the left one and it counts. */
  predicate Asks(a: Action, station: nat) {
    a.Call? && a.station == station && a.configured && (Light(a.lights, 4) || (a.leftEnabled && Light(a.lights, 5)))
  }

  /** Among the first `n` steps such a call was made, by a caller that was outside. */
  ghost predicate Asked(run: seq<Action>, n: nat, station: nat)
    requires n <= |run|
  {
    exists i :: 0 <= i < n && Asks(run[i], station) && Pc(StateAt(run, i), run[i].c).Outside?
  }

  /** A call that asks takes its caller to the mutex; any other call changes nothing. */
  lemma CallProceeds(s: State, a: Action)
    requires a.Call? && Enabled(s, a)
    ensures Asks(a, a.station) ==> Apply(s, a) == s.(callers := s.callers[a.c := AtLock(a.station)])
    ensures !Asks(a, a.station) ==> Apply(s, a) == s
  {
    LightBits(a.lights);
  }

  lemma LightBits(lights: bv8)
    ensures Light(lights, 4) <==> lights & 0x10 != 0
    ensures Light(lights, 5) <==> lights & 0x20 != 0
  {
  }

  /** The station a caller is busy with, until its client has it. */
  function BusyWith(pc: CallerPc): set<nat> {
    match pc
    case AtLock(x) => {x}
    case Locked(x) => {x}
    case Creating(x) => {x}
    case Created(x, _) => {x}
    case Pushed(x, _) => {x}
    case Spawned(x, _) => {x}
    case _ => {}
  }

  /** The stations of callers, of clients and of the list. */
  ghost predicate Known(s: State, x: nat) {
    || (exists c :: c in s.callers && x in BusyWith(s.callers[c]))
    || (exists id :: id in s.clients && s.clients[id].station == x)
    || x in s.triggered
  }

  /** A step makes a station known only if it is a call that asks for it. */
  lemma KnownStep(s: State, a: Action, x: nat)
    requires Inv(s) && Enabled(s, a) && Known(Apply(s, a), x)
    ensures Known(s, x) || Asks(a, x)
  {
    hide Inv, Signals, Light;
    if a.Call? {
      LightBits(a.lights);
      KnownCall(s, a, x);
    } else if a.Remove? {
      WithoutKnown(s, a, x);
    } else if ByCallerStep(a) {
      KnownCaller(s, a, x);
    }
  }

  lemma KnownCall(s: State, a: Action, x: nat)
    requires a.Call? && Enabled(s, a) && Known(Apply(s, a), x)
    ensures Known(s, x) || Asks(a, x)
  {
    CallProceeds(s, a);
    if Apply(s, a) != s && x != a.station {
      assert forall c :: c != a.c ==> (c in Apply(s, a).callers <==> c in s.callers);
    }
  }

  lemma WithoutKnown(s: State, a: Action, x: nat)
    requires a.Remove? && Enabled(s, a) && Known(Apply(s, a), x)
    ensures Known(s, x)
  {
    WithoutSubset(s.triggered, Station(s, a.t), x);
  }

  lemma {:induction false} WithoutSubset(l: seq<nat>, y: nat, x: nat)
    ensures x in Without(l, y) ==> x in l
  {
    if l != [] {
      WithoutSubset(l[..|l| - 1], y, x);
    }
  }

  lemma KnownCaller(s: State, a: Action, x: nat)
    requires ByCallerStep(a) && !a.Call? && Enabled(s, a) && Known(Apply(s, a), x)
    ensures Known(s, x)
  {
    assert a.c in s.callers;
  }

  /** Every station a caller, a client or the list is concerned with goes back to a call that asked for it. */
  lemma {:induction false} KnownAsked(run: seq<Action>, n: nat, x: nat)
    requires n <= |run| && Known(StateAt(run, n), x)
    ensures Asked(run, n, x)
  {
    hide Known, Apply, Enabled, Inv, Asks;
    if n == 0 {
      NothingKnown(x);
    } else {
      RunKeeps(run, n - 1);
      var s, a := StateAt(run, n - 1), run[n - 1];
      if Known(s, x) {
        KnownAsked(run, n - 1, x);
      } else if Enabled(s, a) {
        KnownStep(s, a, x);
        OutsideCall(s, a, x);
      }
    }
  }

  lemma NothingKnown(x: nat)
    ensures !Known(INIT, x)
  {
  }

  lemma OutsideCall(s: State, a: Action, x: nat)
    requires Enabled(s, a) && Asks(a, x)
    ensures Pc(s, a.c).Outside?
  {
  }

  /** Every client that is made, and every station on the list, goes back to a call that asked for it. */
  lemma ClientsAsked(run: seq<Action>, n: nat)
    requires n <= |run|
    ensures forall id :: id in StateAt(run, n).clients ==> Asked(run, n, StateAt(run, n).clients[id].station)
    ensures forall x :: x in StateAt(run, n).triggered ==> Asked(run, n, x)
  {
    hide StateAt, Asked;
    var s := StateAt(run, n);
    forall id | id in s.clients
      ensures Asked(run, n, s.clients[id].station)
    {
      assert Known(s, s.clients[id].station);
      KnownAsked(run, n, s.clients[id].station);
    }
    forall x | x in s.triggered
      ensures Asked(run, n, x)
    {
      assert Known(s, x);
      KnownAsked(run, n, x);
    }
  }

  // ---- What a call and its thread do by themselves ----

  /** The state after these steps, if each of them can be taken. */
  ghost function Chain(s: State, steps: seq<Action>): Option<State> {
    if steps == [] then Some(s)
    else
      match Chain(s, steps[..|steps| - 1])
      case None => None
      case Some(p) =>
        if Enabled(p, steps[|steps| - 1]) then Some(Apply(p, steps[|steps| - 1])) else None
  }

  lemma NoSteps(s: State)
    ensures Chain(s, []) == Some(s)
  {
  }

  lemma Onwards(s: State, steps: seq<Action>, p: State, a: Action) returns (steps': seq<Action>, p': State)
    requires Chain(s, steps) == Some(p) && Enabled(p, a)
    ensures steps' == steps + [a] && p' == Apply(p, a) && Chain(s, steps') == Some(p')
  {
    steps', p' := steps + [a], Apply(p, a);
    assert steps'[..|steps|] == steps;
  }

  /** A caller that gets the mutex for a station on the list gives it back and changes nothing. */
  lemma CallFindsStation(s: State, c: nat)
    requires Pc(s, c).AtLock? && s.holder.Free? && Pc(s, c).station in s.triggered
    ensures Chain(s, [Lock(c), Find(c), Unlock(c)]) == Some(s.(callers := s.callers[c := Outside]))
  {
    NoSteps(s);
    hide Chain;
    var a1, s1 := Onwards(s, [], s, Lock(c));
    var a2, s2 := Onwards(s, a1, s1, Find(c));
    var a3, s3 := Onwards(s, a2, s2, Unlock(c));
    assert a3 == [Lock(c), Find(c), Unlock(c)];
    assert s3.callers == s.callers[c := Outside];
  }

  /** A caller that cannot allocate its client gives the mutex back and changes nothing. */
  lemma CallGivesUp(s: State, c: nat, id: nat)
    requires Pc(s, c).AtLock? && s.holder.Free? && Pc(s, c).station !in s.triggered
    ensures Chain(s, [Lock(c), Find(c), New(c, id, false), Unlock(c)]) == Some(s.(callers := s.callers[c := Outside]))
  {
    NoSteps(s);
    hide Chain;
    var a1, s1 := Onwards(s, [], s, Lock(c));
    var a2, s2 := Onwards(s, a1, s1, Find(c));
    var a3, s3 := Onwards(s, a2, s2, New(c, id, false));
    var a4, s4 := Onwards(s, a3, s3, Unlock(c));
    assert a4 == [Lock(c), Find(c), New(c, id, false), Unlock(c)];
    assert s4.callers == s.callers[c := Outside];
  }

  /** The steps of a call for a station that is not on the list; `id` is the client it makes. */
  function CallSteps(c: nat, id: nat): seq<Action> {
    [Lock(c), Find(c), New(c, id, true), Push(c), Spawn(c, true), SetRunning(c), Unlock(c)]
  }

  /** Otherwise it makes a client, lists the station and starts the thread, and the mutex is free again. */
  lemma CallStartsThread(s: State, c: nat, id: nat)
    requires Pc(s, c).AtLock? && s.holder.Free? && Pc(s, c).station !in s.triggered
    requires id !in s.clients && id !in s.deleted
    ensures Chain(s, CallSteps(c, id))
         == Some(s.(
              triggered := s.triggered + [Pc(s, c).station],
              clients := s.clients[id := Client(Pc(s, c).station, true)],
              callers := s.callers[c := Outside],
              threads := s.threads[id := Looping]))
  {
    NoSteps(s);
    hide Chain;
    var a1, s1 := Onwards(s, [], s, Lock(c));
    var a2, s2 := Onwards(s, a1, s1, Find(c));
    var a3, s3 := Onwards(s, a2, s2, New(c, id, true));
    assert s3.callers == s.callers[c := Created(Pc(s, c).station, id)];
    var a4, s4 := Onwards(s, a3, s3, Push(c));
    var a5, s5 := Onwards(s, a4, s4, Spawn(c, true));
    var a6, s6 := Onwards(s, a5, s5, SetRunning(c));
    var a7, s7 := Onwards(s, a6, s6, Unlock(c));
    assert s7.callers == s.callers[c := Outside];
    assert s7.clients == s.clients[id := Client(Pc(s, c).station, true)];
    assert a7 == CallSteps(c, id);
  }

  /** The steps of a thread that leaves its loop. */
  function ThreadSteps(t: nat): seq<Action> {
    [LeaveLoop(t), ClearRunning(t), NotifyLock(t), Remove(t), NotifyUnlock(t), Delete(t)]
  }

  lemma ThreadEnds(s: State, t: nat)
    requires t in s.threads && s.threads[t] == Looping && s.holder.Free? && t in s.clients
    ensures Chain(s, ThreadSteps(t))
         == Some(s.(
              triggered := Without(s.triggered, s.clients[t].station),
              clients := s.clients - {t},
              deleted := s.deleted + {t},
              threads := s.threads[t := Gone]))
  {
    NoSteps(s);
    hide Chain, Without;
    var a1, s1 := Onwards(s, [], s, LeaveLoop(t));
    var a2, s2 := Onwards(s, a1, s1, ClearRunning(t));
    var a3, s3 := Onwards(s, a2, s2, NotifyLock(t));
    var a4, s4 := Onwards(s, a3, s3, Remove(t));
    var a5, s5 := Onwards(s, a4, s4, NotifyUnlock(t));
    var a6, s6 := Onwards(s, a5, s5, Delete(t));
    assert s6.threads == s.threads[t := Gone];
    assert s6.clients == s.clients - {t};
    assert a6 == ThreadSteps(t);
  }

  /** A thread that leaves its loop, and finds the mutex free, takes its station off the list and deletes its client. */
  lemma ThreadCleansUp(run: seq<Action>, n: nat, t: nat)
    requires n <= |run| && t in StateAt(run, n).threads && StateAt(run, n).threads[t] == Looping
    requires StateAt(run, n).holder.Free?
    ensures var s, end := StateAt(run, n), Chain(StateAt(run, n), ThreadSteps(t));
      && end.Some? && t in s.clients && end.value.clients == s.clients - {t} && end.value.deleted == s.deleted + {t}
      && (forall x :: x in end.value.triggered <==> x in s.triggered && x != s.clients[t].station)
      && end.value.threads == s.threads[t := Gone] && end.value.callers == s.callers && end.value.holder.Free?
  {
    RunKeeps(run, n);
    hide StateAt, MutexHeld, CallersFit, StationsListed, ListOwned, Chain, Without;
    var s := StateAt(run, n);
    ThreadEnds(s, t);
    WithoutDistinct(s.triggered, s.clients[t].station);
  }

  // ---- A thread that cannot be created ----

  lemma LeakStays(s: State, a: Action, id: nat)
    requires Enabled(s, a) && id in s.leaked
    ensures id in Apply(s, a).leaked
  {
  }

  lemma {:induction false} LeakedForever(run: seq<Action>, m: nat, n: nat, id: nat)
    requires m <= n <= |run| && id in StateAt(run, m).leaked
    ensures id in StateAt(run, n).leaked
  {
    hide Apply, Enabled;
    if m < n {
      LeakedForever(run, m, n - 1, id);
      if Enabled(StateAt(run, n - 1), run[n - 1]) {
        LeakStays(StateAt(run, n - 1), run[n - 1], id);
      }
    }
  }

  /**
   When the thread of a client could not be created, its station stays on the list for good:
   no later call finds it missing, so none starts a thread for it.
   */
  lemma LeakBlocksStation(run: seq<Action>, m: nat, n: nat, id: nat, c: nat)
    requires m <= n <= |run| && id in StateAt(run, m).leaked
    ensures id in StateAt(run, n).clients && Station(StateAt(run, n), id) in StateAt(run, n).triggered
    ensures Pc(StateAt(run, n), c).Creating? ==> Pc(StateAt(run, n), c).station != Station(StateAt(run, n), id)
  {
    hide StateAt, MutexHeld, NoDup, ListOwned;
    LeakedForever(run, m, n, id);
    RunKeeps(run, n);
    var s := StateAt(run, n);
    assert Owner(s, id);
    if Pc(s, c).Creating? {
      assert CallerFits(s, s.callers[c]);
    }
  }

  /** A run in which the only caller cannot start its thread: the mutex is free again, and the station is blocked. */
  lemma LeakReached(station: nat) returns (run: seq<Action>)
    ensures var s := StateAt(run, |run|);
            s.leaked == {0} && s.holder.Free? && s.threads == map[] && station in s.triggered
  {
    StartState();
    hide StateAt;
    var s0 := INIT;
    var s1, a1 := OneStep([], s0, Call(0, station, 16, false, true));
    var s2, a2 := OneStep(a1, s1, Lock(0));
    var s3, a3 := OneStep(a2, s2, Find(0));
    assert s3 == State(ByCaller(0), [], map[], {}, map[0 := Creating(station)], map[], {});
    var s4, a4 := OneStep(a3, s3, New(0, 0, true));
    var s5, a5 := OneStep(a4, s4, Push(0));
    assert s5.triggered == [station] && s5.threads == map[] && Pc(s5, 0) == Pushed(station, 0);
    var s6, a6 := OneStep(a5, s5, Spawn(0, false));
    var s7, a7 := OneStep(a6, s6, Unlock(0));
    run := a7;
  }

  lemma StartState()
    ensures StateAt([], 0) == INIT
  {
  }

  lemma OneStep(run: seq<Action>, s: State, a: Action) returns (s': State, run': seq<Action>)
    requires s == StateAt(run, |run|) && Enabled(s, a)
    ensures run' == run + [a] && s' == Apply(s, a) && s' == StateAt(run', |run'|)
  {
    run' := run + [a];
    s' := Apply(s, a);
    SameStart(run, a, |run|);
  }

  lemma {:induction false} SameStart(run: seq<Action>, a: Action, n: nat)
    requires n <= |run|
    ensures StateAt(run + [a], n) == StateAt(run, n)
  {
    if n > 0 {
      SameStart(run, a, n - 1);
      assert (run + [a])[n - 1] == run[n - 1];
    }
  }

  /** A run of one call up to where it has started its thread. */
  lemma ThreadStarted(station: nat) returns (run: seq<Action>)
    ensures StateAt(run, |run|)
         == State(ByCaller(0), [station], map[0 := Client(station, false)], {}, map[0 := Spawned(station, 0)],
                  map[0 := Looping], {})
  {
    StartState();
    hide StateAt;
    var s1, a1 := OneStep([], INIT, Call(0, station, 16, false, true));
    var s2, a2 := OneStep(a1, s1, Lock(0));
    var s3, a3 := OneStep(a2, s2, Find(0));
    assert s3 == State(ByCaller(0), [], map[], {}, map[0 := Creating(station)], map[], {});
    var s4, a4 := OneStep(a3, s3, New(0, 0, true));
    var s5, a5 := OneStep(a4, s4, Push(0));
    var s6, a6 := OneStep(a5, s5, Spawn(0, true));
    run := a6;
  }

  /**
   A run in which the thread has left its loop before its spawner has marked it as running: the
   flag is cleared first and set behind that, and stays set.
   */
  lemma FlagStaysSet(station: nat) returns (run: seq<Action>)
    ensures var s := StateAt(run, |run|);
            s.threads == map[0 := AtNotify] && s.clients == map[0 := Client(station, true)]
  {
    var a6 := ThreadStarted(station);
    hide StateAt;
    var s6 := StateAt(a6, |a6|);
    var s7, a7 := OneStep(a6, s6, LeaveLoop(0));
    var s8, a8 := OneStep(a7, s7, ClearRunning(0));
    var s9, a9 := OneStep(a8, s8, SetRunning(0));
    run := a9;
  }

  // ---- Progress ----

  /** The next step of whoever holds the mutex; allocations and thread creations may fail. */
  function HolderStep(s: State): Action
    requires !s.holder.Free?
  {
    match s.holder
    case ByThread(t) => if t in s.threads && s.threads[t] == Removing then Remove(t) else NotifyUnlock(t)
    case ByCaller(c) =>
      match Pc(s, c)
      case Locked(_) => Find(c)
      case Creating(_) => New(c, 0, false)
      case Created(_, _) => Push(c)
      case Pushed(_, _) => Spawn(c, false)
      case Spawned(_, _) => SetRunning(c)
      case _ => Unlock(c)
  }

  /** How far the holder of the mutex is from releasing it. */
  function StepsToRelease(s: State): nat {
    match s.holder
    case Free => 0
    case ByThread(t) => if t in s.threads && s.threads[t] == Removing then 2 else 1
    case ByCaller(c) =>
      match Pc(s, c)
      case Locked(_) => 6
      case Creating(_) => 5
      case Created(_, _) => 4
      case Pushed(_, _) => 3
      case Spawned(_, _) => 2
      case _ => 1
  }

  /**
   Whoever holds the mutex can go on, and comes nearer to releasing it with each of its steps;
   others do not change that.
   */
  lemma MutexIsReleased(run: seq<Action>, n: nat, a: Action)
    requires n <= |run| && !StateAt(run, n).holder.Free? && Enabled(StateAt(run, n), a)
    ensures var s := StateAt(run, n);
            && Enabled(s, HolderStep(s))
            && StepsToRelease(Apply(s, HolderStep(s))) < StepsToRelease(s)
            && StepsToRelease(Apply(s, a)) <= StepsToRelease(s)
  {
    hide StateAt, ObjectsLive, CallersFit, NoDup, StationsListed, ListOwned;
    RunKeeps(run, n);
    HolderGoesOn(StateAt(run, n), a);
  }

  lemma HolderGoesOn(s: State, a: Action)
    requires MutexHeld(s) && !s.holder.Free? && Enabled(s, a)
    ensures Enabled(s, HolderStep(s)) && StepsToRelease(Apply(s, HolderStep(s))) < StepsToRelease(s)
    ensures StepsToRelease(Apply(s, a)) <= StepsToRelease(s)
  {
    match s.holder {
      case ByCaller(c) =>
        assert Critical(Pc(s, c));
        if ByCallerStep(a) && !a.Call? {
          assert Critical(Pc(s, a.c)) ==> a.c == c;
        }
      case ByThread(t) =>
        assert Notifying(s.threads[t]);
    }
  }

  /** A thread that is not gone can go on, or waits for a mutex somebody holds. */
  lemma ThreadNotStuck(s: State, t: nat)
    requires t in s.threads && s.threads[t] != Gone
    ensures (exists a :: Enabled(s, a) && Accesses(s, a) == {t}) || (s.threads[t] == AtNotify && !s.holder.Free?)
  {
    match s.threads[t] {
      case Looping => assert Enabled(s, LeaveLoop(t)) && Accesses(s, LeaveLoop(t)) == {t};
      case LoopLeft => assert Enabled(s, ClearRunning(t)) && Accesses(s, ClearRunning(t)) == {t};
      case AtNotify => assert s.holder.Free? ==> Enabled(s, NotifyLock(t)) && Accesses(s, NotifyLock(t)) == {t};
      case Removing => assert Enabled(s, Remove(t)) && Accesses(s, Remove(t)) == {t};
      case Removed => assert Enabled(s, NotifyUnlock(t)) && Accesses(s, NotifyUnlock(t)) == {t};
      case Notified => assert Enabled(s, Delete(t)) && Accesses(s, Delete(t)) == {t};
      case Gone =>
    }
  }
}

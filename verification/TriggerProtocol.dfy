/**
 The indicator trigger and its REST clients as a state machine: callers of `checkAndTrigger`
 and the threads they start run interleaved, step by step, around one mutex.
 */
module TriggerProtocol {
  import opened Sequences

  /** A REST client object on the heap; its number is also that of its thread. */
  datatype Client = Client(station: nat, running: bool)

  /** Where a caller of `checkAndTrigger` is. */
  datatype CallerPc =
    | Outside
    | AtLock(station: nat)
    | Locked(station: nat)
    | Creating(station: nat)
    | Created(station: nat, client: nat)
    | Pushed(station: nat, client: nat)
    | Spawned(station: nat, client: nat)
    | Started(client: nat)
    | Leaving

  /** Where a REST thread is. */
  datatype ThreadPc =
    | Looping
    | LoopLeft
    | AtNotify
    | Removing
    | Removed
    | Notified
    | Gone

  datatype Holder = Free | ByCaller(c: nat) | ByThread(t: nat)

  datatype State = State(
    holder: Holder,
    triggered: seq<nat>,
    clients: map<nat, Client>,
    deleted: set<nat>,
    callers: map<nat, CallerPc>,
    threads: map<nat, ThreadPc>,
    leaked: set<nat>)

  function Pc(s: State, c: nat): CallerPc {
    if c in s.callers then s.callers[c] else Outside
  }

  /** The caller is between locking and unlocking the mutex. */
  predicate Critical(pc: CallerPc) {
    !pc.Outside? && !pc.AtLock?
  }

  /** The thread is between locking and unlocking the mutex. */
  predicate Notifying(pc: ThreadPc) {
    pc == Removing || pc == Removed
  }

  /** The thread has not yet taken its station off the list. */
  predicate Unnotified(pc: ThreadPc) {
    pc == Looping || pc == LoopLeft || pc == AtNotify || pc == Removing
  }

  /** The thread has not yet asked for the mutex with success. */
  predicate BeforeNotify(pc: ThreadPc) {
    pc == Looping || pc == LoopLeft || pc == AtNotify
  }

  /** The client a caller still holds a pointer to, or whose start it has not returned from. */
  predicate RefersTo(pc: CallerPc, id: nat) {
    match pc
    case Created(_, k) => k == id
    case Pushed(_, k) => k == id
    case Spawned(_, k) => k == id
    case Started(k) => k == id
    case _ => false
  }

  const INIT := State(Free, [], map[], {}, map[], map[], {})

  // ---- Steps ----

  /** `ok` says whether an allocation or a thread creation succeeds. */
  datatype Action =
    | Call(c: nat, station: nat, lights: bv8, leftEnabled: bool, configured: bool)
    | Lock(c: nat)
    | Find(c: nat)
    | New(c: nat, id: nat, ok: bool)
    | Push(c: nat)
    | Spawn(c: nat, ok: bool)
    | SetRunning(c: nat)
    | Unlock(c: nat)
    | Work(t: nat)
    | LeaveLoop(t: nat)
    | ClearRunning(t: nat)
    | NotifyLock(t: nat)
    | Remove(t: nat)
    | NotifyUnlock(t: nat)
    | Delete(t: nat)

  /** The turn signals that trigger: the right one always, the left one if it is enabled. */
  predicate Signals(lights: bv8, leftEnabled: bool) {
    lights & 0x10 != 0 || (leftEnabled && lights & 0x20 != 0)
  }

  predicate Enabled(s: State, a: Action) {
    match a
    case Call(c, _, _, _, _) => Pc(s, c).Outside?
    case Lock(c) => Pc(s, c).AtLock? && s.holder.Free?
    case Find(c) => Pc(s, c).Locked?
    case New(c, id, ok) => Pc(s, c).Creating? && (ok ==> id !in s.clients && id !in s.deleted)
    case Push(c) => Pc(s, c).Created?
    case Spawn(c, _) => Pc(s, c).Pushed?
    case SetRunning(c) => Pc(s, c).Spawned?
    case Unlock(c) => Pc(s, c).Started? || Pc(s, c).Leaving?
    case Work(t) => t in s.threads && s.threads[t] == Looping
    case LeaveLoop(t) => t in s.threads && s.threads[t] == Looping
    case ClearRunning(t) => t in s.threads && s.threads[t] == LoopLeft
    case NotifyLock(t) => t in s.threads && s.threads[t] == AtNotify && s.holder.Free?
    case Remove(t) => t in s.threads && s.threads[t] == Removing
    case NotifyUnlock(t) => t in s.threads && s.threads[t] == Removed
    case Delete(t) => t in s.threads && s.threads[t] == Notified
  }

  /** The clients a step reads or writes through a pointer. */
  function Accesses(s: State, a: Action): set<nat> {
    match a
    case Push(c) => if Pc(s, c).Created? then {Pc(s, c).client} else {}
    case Spawn(c, _) => if Pc(s, c).Pushed? then {Pc(s, c).client} else {}
    case SetRunning(c) => if Pc(s, c).Spawned? then {Pc(s, c).client} else {}
    case Work(t) => {t}
    case LeaveLoop(t) => {t}
    case ClearRunning(t) => {t}
    case NotifyLock(t) => {t}
    case Remove(t) => {t}
    case NotifyUnlock(t) => {t}
    case Delete(t) => {t}
    case _ => {}
  }

  /** `list::remove` */
  function Without(l: seq<nat>, x: nat): seq<nat> {
    if l == [] then []
    else
      var front, last := l[..|l| - 1], l[|l| - 1];
      if last == x then Without(front, x) else Without(front, x) + [last]
  }

  function SetPc(s: State, c: nat, pc: CallerPc): State {
    s.(callers := s.callers[c := pc])
  }

  function SetThread(s: State, t: nat, pc: ThreadPc): State {
    s.(threads := s.threads[t := pc])
  }

  function SetRunningFlag(s: State, id: nat, running: bool): State {
    if id in s.clients then s.(clients := s.clients[id := s.clients[id].(running := running)]) else s
  }

  function Station(s: State, id: nat): nat {
    if id in s.clients then s.clients[id].station else 0
  }

  function Apply(s: State, a: Action): State
    requires Enabled(s, a)
  {
    match a
    case Call(c, station, lights, leftEnabled, configured) =>
      if configured && Signals(lights, leftEnabled) then SetPc(s, c, AtLock(station)) else s
    case Lock(c) => SetPc(s, c, Locked(Pc(s, c).station)).(holder := ByCaller(c))
    case Find(c) => SetPc(s, c, if Pc(s, c).station in s.triggered then Leaving else Creating(Pc(s, c).station))
    case New(c, id, ok) =>
      var x := Pc(s, c).station;
      if ok then SetPc(s, c, Created(x, id)).(clients := s.clients[id := Client(x, false)])
      else SetPc(s, c, Leaving)
    case Push(c) =>
      var x := Pc(s, c).station;
      SetPc(s, c, Pushed(x, Pc(s, c).client)).(triggered := s.triggered + [x])
    case Spawn(c, ok) =>
      var id := Pc(s, c).client;
      if ok then SetThread(SetPc(s, c, Spawned(Pc(s, c).station, id)), id, Looping)
      else SetPc(s, c, Leaving).(leaked := s.leaked + {id})
    case SetRunning(c) => SetRunningFlag(SetPc(s, c, Started(Pc(s, c).client)), Pc(s, c).client, true)
    case Unlock(c) => SetPc(s, c, Outside).(holder := Free)
    case Work(t) => s
    case LeaveLoop(t) => SetThread(s, t, LoopLeft)
    case ClearRunning(t) => SetRunningFlag(SetThread(s, t, AtNotify), t, false)
    case NotifyLock(t) => SetThread(s, t, Removing).(holder := ByThread(t))
    case Remove(t) => SetThread(s, t, Removed).(triggered := Without(s.triggered, Station(s, t)))
    case NotifyUnlock(t) => SetThread(s, t, Notified).(holder := Free)
    case Delete(t) => SetThread(s, t, Gone).(clients := s.clients - {t}, deleted := s.deleted + {t})
  }

  // ---- What every step keeps ----

  /** The mutex is held by whoever is in a critical part, and by nobody else. */
  ghost predicate MutexHeld(s: State) {
    && (forall c :: Critical(Pc(s, c)) <==> s.holder == ByCaller(c))
    && (forall t :: t in s.threads ==> (Notifying(s.threads[t]) <==> s.holder == ByThread(t)))
    && (s.holder.ByThread? ==> s.holder.t in s.threads)
  }

  /** Objects exist as long as somebody uses them. */
  ghost predicate ObjectsLive(s: State) {
    && s.clients.Keys !! s.deleted
    && (forall t :: t in s.threads ==> if s.threads[t] == Gone then t in s.deleted else t in s.clients)
    && (forall t :: t in s.deleted ==> t in s.threads)
    && (forall t :: t in s.leaked ==> t in s.clients && t !in s.threads)
  }

  /** A client that keeps its station on the list: its thread has not notified yet, or never started. */
  predicate Owner(s: State, t: nat) {
    (t in s.threads && Unnotified(s.threads[t])) || t in s.leaked
  }

  /** Each owner has its station on the list, and shares it with no other owner. */
  ghost predicate StationsListed(s: State) {
    && (forall t :: Owner(s, t) ==> Station(s, t) in s.triggered)
    && (forall t, u :: Owner(s, t) && Owner(s, u) && t != u ==> Station(s, t) != Station(s, u))
  }

  /** What holds for the caller in the critical part. */
  ghost predicate CallerFits(s: State, pc: CallerPc) {
    match pc
    case Creating(x) => x !in s.triggered
    case Created(x, id) =>
      && x !in s.triggered && id in s.clients && s.clients[id].station == x && id !in s.threads && id !in s.leaked
    case Pushed(x, id) =>
      && x in s.triggered && id in s.clients && s.clients[id].station == x && id !in s.threads && id !in s.leaked
      && (forall t :: Owner(s, t) ==> Station(s, t) != x)
    case Spawned(x, id) => id in s.threads && BeforeNotify(s.threads[id]) && Station(s, id) == x
    case Started(id) => id in s.threads && BeforeNotify(s.threads[id])
    case _ => true
  }

  ghost predicate CallersFit(s: State) {
    forall c :: c in s.callers ==> CallerFits(s, s.callers[c])
  }

  /** Whose station it is that stands on the list. */
  ghost predicate Owned(s: State, x: nat) {
    || (exists t :: Owner(s, t) && Station(s, t) == x)
    || (s.holder.ByCaller? && Pc(s, s.holder.c).Pushed? && Pc(s, s.holder.c).station == x)
  }

  ghost predicate ListOwned(s: State) {
    forall i :: 0 <= i < |s.triggered| ==> Owned(s, s.triggered[i])
  }

  ghost predicate Inv(s: State) {
    MutexHeld(s) && NoDup(s.triggered) && ObjectsLive(s) && StationsListed(s) && CallersFit(s) && ListOwned(s)
  }
}

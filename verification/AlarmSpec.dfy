/**
  Two schedulers over the same events.  `System` is the one the HAL implements: a 32-bit tick counter,
  a 32-bit time and one rollover bit per alarm.  `Ideal` counts ticks without bound.
 */
module AlarmSpec {
  import opened Words

  // ---------- The events of a run ----------

  // A tick carries what each alarm's callback would return if the tick called it.
  datatype Event<!Id> =
    | Start(id: Id, nticks: u32)
    | Stop(id: Id)
    | Tick(ret: Id -> u32)

  // ---------- The 32-bit scheduler ----------

  datatype Entry<+Id> = Entry(id: Id, time: u32, rollover: bool)

  datatype System<+Id> = System(nticks: u32, entries: seq<Entry<Id>>)

  // What a tick does to one alarm: whether it is called, and what stays registered.
  datatype Outcome<+E> = Outcome(called: bool, next: Option<E>)

  // What one tick leaves of the alarms it visits, and the alarms it calls, in visiting order.
  datatype Visited<+E, +Id> = Visited(kept: seq<E>, fired: seq<Id>)

  function Extend<E, Id>(v: Visited<E, Id>, id: Id, o: Outcome<E>): Visited<E, Id> {
    Visited(
      if o.next.Some? then v.kept + [o.next.value] else v.kept,
      if o.called then v.fired + [id] else v.fired)
  }

  function Armed<Id>(id: Id, now: u32, nticks: u32): Entry<Id> {
    var time := ToU32(nticks + now + 1);
    Entry(id, time, time < now)
  }

  function Visit<Id>(e: Entry<Id>, now: u32, r: u32): Outcome<Entry<Id>> {
    var rollover := e.rollover && now != 0;
    if e.time <= now && !rollover then
      var time := ToU32(e.time + r);
      Outcome(true, if r == 0 then None else Some(Entry(e.id, time, time < now)))
    else
      Outcome(false, Some(e.(rollover := rollover)))
  }

  function VisitAll<Id>(es: seq<Entry<Id>>, now: u32, ret: Id -> u32): Visited<Entry<Id>, Id> {
    if es == [] then Visited([], [])
    else
      var n := |es| - 1;
      Extend(VisitAll(es[..n], now, ret), es[n].id, Visit(es[n], now, ret(es[n].id)))
  }

  function Without<Id(==)>(es: seq<Entry<Id>>, id: Id): seq<Entry<Id>> {
    if es == [] then []
    else
      var n := |es| - 1;
      if es[n].id == id then Without(es[..n], id) else Without(es[..n], id) + [es[n]]
  }

  function Step<Id(==)>(s: System<Id>, ev: Event<Id>): System<Id> {
    match ev
    case Start(id, n) => s.(entries := [Armed(id, s.nticks, n)] + s.entries)
    case Stop(id) => s.(entries := Without(s.entries, id))
    case Tick(ret) =>
      var now := ToU32(s.nticks + 1);
      System(now, VisitAll(s.entries, now, ret).kept)
  }

  function Fired<Id>(s: System<Id>, ev: Event<Id>): seq<Id> {
    if ev.Tick? then VisitAll(s.entries, ToU32(s.nticks + 1), ev.ret).fired else []
  }

  function Run<Id(==)>(s: System<Id>, evs: seq<Event<Id>>): System<Id> {
    if evs == [] then s else Step(Run(s, evs[..|evs| - 1]), evs[|evs| - 1])
  }

  function Boot<Id>(): System<Id> {
    System(0, [])
  }

  // The alarms called by an event that follows a run from reset.
  function CalledBy<Id(==)>(past: seq<Event<Id>>, ev: Event<Id>): seq<Id> {
    Fired(Run(Boot(), past), ev)
  }

  // ---------- The scheduler with unbounded time ----------

  datatype Timer<+Id> = Timer(id: Id, due: nat)

  datatype Ideal<+Id> = Ideal(now: nat, timers: seq<Timer<Id>>)

  function Serve<Id>(t: Timer<Id>, now: nat, r: u32): Outcome<Timer<Id>> {
    if t.due <= now then Outcome(true, if r == 0 then None else Some(Timer(t.id, now + r)))
    else Outcome(false, Some(t))
  }

  function ServeAll<Id>(ts: seq<Timer<Id>>, now: nat, ret: Id -> u32): Visited<Timer<Id>, Id> {
    if ts == [] then Visited([], [])
    else
      var n := |ts| - 1;
      Extend(ServeAll(ts[..n], now, ret), ts[n].id, Serve(ts[n], now, ret(ts[n].id)))
  }

  function Cancel<Id(==)>(ts: seq<Timer<Id>>, id: Id): seq<Timer<Id>> {
    if ts == [] then []
    else
      var n := |ts| - 1;
      if ts[n].id == id then Cancel(ts[..n], id) else Cancel(ts[..n], id) + [ts[n]]
  }

  function IdealStep<Id(==)>(i: Ideal<Id>, ev: Event<Id>): Ideal<Id> {
    match ev
    case Start(id, n) => i.(timers := [Timer(id, i.now + n + 1)] + i.timers)
    case Stop(id) => i.(timers := Cancel(i.timers, id))
    case Tick(ret) => Ideal(i.now + 1, ServeAll(i.timers, i.now + 1, ret).kept)
  }

  function IdealFired<Id>(i: Ideal<Id>, ev: Event<Id>): seq<Id> {
    if ev.Tick? then ServeAll(i.timers, i.now + 1, ev.ret).fired else []
  }

  function IdealRun<Id(==)>(i: Ideal<Id>, evs: seq<Event<Id>>): Ideal<Id> {
    if evs == [] then i else IdealStep(IdealRun(i, evs[..|evs| - 1]), evs[|evs| - 1])
  }

  // ---------- One alarm, on its own ----------

  // Registered or not, and the tick that calls the alarm next.  Behind is where an interval that the
  // rollover bit cannot hold leaves it: its time is one short of that tick.
  datatype Status = Off | DueAt(tick: nat) | Behind(tick: nat)

  // The interval 2^32-1 is only representable when the counter stands at its last value.
  predicate Representable(nticks: u32, now: u32) {
    nticks < WRAP - 1 || now == WRAP - 1
  }

  // The status of one alarm after an event that finds the unbounded tick count at `now`.
  function Follow<Id(==)>(st: Status, now: nat, ev: Event<Id>, id: Id): Status {
    match ev
    case Start(x, n) =>
      if x != id then st else if Representable(n, ToU32(now)) then DueAt(now + n + 1) else Behind(now + 1)
    case Stop(x) => if x == id then Off else st
    case Tick(ret) =>
      if st == DueAt(now + 1) then if ret(id) == 0 then Off else DueAt(now + 1 + ret(id))
      else if st == Behind(now + 1) then FollowBehind(now + 1, ret(id))
      else st
  }

  // Called behind, an alarm that returns 2 or more is called one tick short of that and is behind no
  // longer; one that returns 1 stays behind, and on the counter's last value misses a whole turn.
  function FollowBehind(tick: nat, r: u32): Status {
    if r == 0 then Off
    else if r >= 2 then DueAt(tick + r - 1)
    else if ToU32(tick) == WRAP - 1 then DueAt(tick + WRAP)
    else Behind(tick + 1)
  }

  function Ticks<Id>(evs: seq<Event<Id>>): nat {
    if evs == [] then 0 else Ticks(evs[..|evs| - 1]) + (if evs[|evs| - 1].Tick? then 1 else 0)
  }

  function StatusAfter<Id(==)>(evs: seq<Event<Id>>, id: Id): Status {
    if evs == [] then Off
    else
      var front := evs[..|evs| - 1];
      Follow(StatusAfter(front, id), Ticks(front), evs[|evs| - 1], id)
  }

  // The alarm is never started while it is registered.  Other alarms may be.
  ghost predicate StartedOff<Id>(evs: seq<Event<Id>>, id: Id) {
    forall k :: 0 <= k < |evs| && evs[k].Start? && evs[k].id == id ==> StatusAfter(evs[..k], id) == Off
  }

  // Its intervals are representable.
  ghost predicate StartedKept<Id>(evs: seq<Event<Id>>, id: Id) {
    forall k :: 0 <= k < |evs| && evs[k].Start? && evs[k].id == id ==>
      Representable(evs[k].nticks, ToU32(Ticks(evs[..k])))
  }

  // Every interval of the run is.
  ghost predicate AllKept<Id>(evs: seq<Event<Id>>) {
    forall k :: 0 <= k < |evs| && evs[k].Start? ==> Representable(evs[k].nticks, ToU32(Ticks(evs[..k])))
  }

  // No event of evs starts or stops the alarm.
  ghost predicate Undisturbed<Id>(evs: seq<Event<Id>>, id: Id) {
    forall k :: 0 <= k < |evs| && !evs[k].Tick? ==> evs[k].id != id
  }
}

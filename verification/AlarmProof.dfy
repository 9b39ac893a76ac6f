/** The 32-bit scheduler refines the one with unbounded time, and every alarm fires exactly when due. */
module AlarmProof {
  import opened Words
  import opened AlarmSpec

  // ---------- Refinement ----------

  // How one 32-bit entry represents a deadline, between ticks, at unbounded tick count `now`.
  ghost predicate Tracks<Id>(e: Entry<Id>, t: Timer<Id>, now: nat) {
    && e.id == t.id
    && e.time == t.due % WRAP
    && now < t.due
    && (|| (t.due <= now + WRAP - 1 && t.due / WRAP - now / WRAP == (if e.rollover then 1 else 0))
        || (t.due == now + WRAP && now % WRAP == WRAP - 1 && !e.rollover))
  }

  ghost predicate AllTrack<Id>(es: seq<Entry<Id>>, ts: seq<Timer<Id>>, now: nat) {
    |es| == |ts| && forall k :: 0 <= k < |es| ==> Tracks(es[k], ts[k], now)
  }

  ghost predicate Coupled<Id>(s: System<Id>, i: Ideal<Id>) {
    s.nticks == i.now % WRAP && AllTrack(s.entries, i.timers, i.now)
  }

  lemma ArmedTracks<Id>(id: Id, now: nat, n: u32)
    requires Representable(n, ToU32(now))
    ensures Tracks(Armed(id, ToU32(now), n), Timer(id, now + n + 1), now)
  {
  }

  lemma VisitTracks<Id>(e: Entry<Id>, t: Timer<Id>, now: nat, r: u32)
    requires Tracks(e, t, now)
    ensures var v, w := Visit(e, ToU32(now + 1), r), Serve(t, now + 1, r);
            && v.called == w.called
            && v.next.Some? == w.next.Some?
            && (v.next.Some? ==> Tracks(v.next.value, w.next.value, now + 1))
  {
    hide Tracks;
    CalledWhenDue(e, t, now);
    if t.due <= now + 1 && r > 0 {
      RearmedTracks(e, t, now, r);
    }
  }

  // The comparison with the rollover bit calls an alarm when it is due, and keeps track of it until then.
  lemma CalledWhenDue<Id>(e: Entry<Id>, t: Timer<Id>, now: nat)
    requires Tracks(e, t, now)
    ensures var tick := ToU32(now + 1); var rollover := e.rollover && tick != 0;
            && e.id == t.id && (t.due <= now + 1 <==> e.time <= tick && !rollover)
            && (t.due > now + 1 ==> Tracks(e.(rollover := rollover), t, now + 1))
  {
    NextSplit(now);
  }

  // The next tick's place in the counter's wraps.
  lemma NextSplit(now: nat)
    ensures if now % WRAP == WRAP - 1 then ToU32(now + 1) == 0 && (now + 1) / WRAP == now / WRAP + 1
            else ToU32(now + 1) == now % WRAP + 1 && (now + 1) / WRAP == now / WRAP
  {
  }

  lemma RearmedTracks<Id>(e: Entry<Id>, t: Timer<Id>, now: nat, r: u32)
    requires Tracks(e, t, now) && t.due <= now + 1 && r > 0
    ensures var tick, time := ToU32(now + 1), ToU32(e.time + r);
            Tracks(Entry(e.id, time, time < tick), Timer(t.id, now + 1 + r), now + 1)
  {
  }

  lemma {:induction false} VisitAllTracks<Id>(es: seq<Entry<Id>>, ts: seq<Timer<Id>>, now: nat, ret: Id -> u32)
    requires AllTrack(es, ts, now)
    ensures var v, w := VisitAll(es, ToU32(now + 1), ret), ServeAll(ts, now + 1, ret);
            v.fired == w.fired && AllTrack(v.kept, w.kept, now + 1)
  {
    if es != [] {
      var n := |es| - 1;
      VisitAllTracks(es[..n], ts[..n], now, ret);
      VisitTracks(es[n], ts[n], now, ret(es[n].id));
    }
  }

  lemma {:induction false} WithoutTracks<Id>(es: seq<Entry<Id>>, ts: seq<Timer<Id>>, now: nat, id: Id)
    requires AllTrack(es, ts, now)
    ensures AllTrack(Without(es, id), Cancel(ts, id), now)
  {
    if es != [] {
      var n := |es| - 1;
      WithoutTracks(es[..n], ts[..n], now, id);
      assert Tracks(es[n], ts[n], now);
    }
  }

  lemma NextTick(now: nat)
    ensures ToU32(ToU32(now) + 1) == ToU32(now + 1)
  {
  }

  lemma TickRefines<Id>(s: System<Id>, i: Ideal<Id>, ev: Event<Id>)
    requires ev.Tick? && Coupled(s, i)
    ensures Coupled(Step(s, ev), IdealStep(i, ev))
    ensures Fired(s, ev) == IdealFired(i, ev)
  {
    hide VisitAll, ServeAll, AllTrack;
    NextTick(i.now);
    VisitAllTracks(s.entries, i.timers, i.now, ev.ret);
  }

  // One step of the 32-bit scheduler is one step of the ideal one: same alarms called, in the same order.
  lemma StepRefines<Id>(s: System<Id>, i: Ideal<Id>, ev: Event<Id>)
    requires Coupled(s, i)
    requires ev.Start? ==> Representable(ev.nticks, s.nticks)
    ensures Coupled(Step(s, ev), IdealStep(i, ev))
    ensures Fired(s, ev) == IdealFired(i, ev)
  {
    if ev.Tick? {
      TickRefines(s, i, ev);
    } else if ev.Stop? {
      WithoutTracks(s.entries, i.timers, i.now, ev.id);
    } else {
      ArmedTracks(ev.id, i.now, ev.nticks);
    }
  }

  ghost function IdealAfter<Id>(evs: seq<Event<Id>>): Ideal<Id> {
    IdealRun(Ideal(0, []), evs)
  }

  // Over every run of representable intervals the whole list is that of the scheduler with unbounded time.
  lemma {:induction false} ListRefines<Id>(evs: seq<Event<Id>>)
    requires AllKept(evs)
    ensures Coupled(Run(Boot(), evs), IdealAfter(evs)) && IdealAfter(evs).now == Ticks(evs)
  {
    if evs != [] {
      var n := |evs| - 1;
      forall k | 0 <= k < n ensures evs[..n][..k] == evs[..k] {}
      ListRefines(evs[..n]);
      StepRefines(Run(Boot(), evs[..n]), IdealAfter(evs[..n]), evs[n]);
    }
  }

  // ---------- One alarm of the list ----------

  // The entries of one alarm.
  ghost function Of<Id>(es: seq<Entry<Id>>, id: Id): seq<Entry<Id>> {
    if es == [] then []
    else
      var n := |es| - 1;
      if es[n].id == id then Of(es[..n], id) + [es[n]] else Of(es[..n], id)
  }

  // How often a tick called the alarm.
  ghost function Calls<Id>(fired: seq<Id>, id: Id): nat {
    if fired == [] then 0
    else
      var n := |fired| - 1;
      Calls(fired[..n], id) + (if fired[n] == id then 1 else 0)
  }

  lemma OfPush<Id>(es: seq<Entry<Id>>, e: Entry<Id>, id: Id)
    ensures Of(es + [e], id) == if e.id == id then Of(es, id) + [e] else Of(es, id)
  {
    assert (es + [e])[..|es|] == es;
  }

  lemma {:induction false} OfPrepend<Id>(e: Entry<Id>, es: seq<Entry<Id>>, id: Id)
    ensures Of([e] + es, id) == if e.id == id then [e] + Of(es, id) else Of(es, id)
  {
    if es == [] {
      assert [e] + es == [] + [e];
      OfPush([], e, id);
    } else {
      var n := |es| - 1;
      assert [e] + es == [e] + es[..n] + [es[n]];
      OfPrepend(e, es[..n], id);
      OfPush([e] + es[..n], es[n], id);
    }
  }

  lemma {:induction false} OfWithout<Id>(es: seq<Entry<Id>>, gone: Id, id: Id)
    ensures Of(Without(es, gone), id) == if id == gone then [] else Of(es, id)
  {
    if es != [] {
      var n := |es| - 1;
      OfWithout(es[..n], gone, id);
      OfPush(Without(es[..n], gone), es[n], id);
    }
  }

  lemma CallsPush<Id>(fired: seq<Id>, x: Id, id: Id)
    ensures Calls(fired + [x], id) == Calls(fired, id) + if x == id then 1 else 0
  {
    assert (fired + [x])[..|fired|] == fired;
  }

  lemma VisitPush<Id>(es: seq<Entry<Id>>, e: Entry<Id>, now: u32, ret: Id -> u32)
    ensures VisitAll(es + [e], now, ret) == Extend(VisitAll(es, now, ret), e.id, Visit(e, now, ret(e.id)))
  {
    assert (es + [e])[..|es|] == es;
  }

  // A tick does to one alarm's entries what it would if there were no others.
  lemma {:induction false} OfVisitAll<Id>(es: seq<Entry<Id>>, now: u32, ret: Id -> u32, id: Id)
    ensures Of(VisitAll(es, now, ret).kept, id) == VisitAll(Of(es, id), now, ret).kept
    ensures Calls(VisitAll(es, now, ret).fired, id) == |VisitAll(Of(es, id), now, ret).fired|
  {
    hide Of, VisitAll, Calls;
    if es == [] {
      OfNone(now, ret, id);
    } else {
      var n := |es| - 1;
      OfVisitAll(es[..n], now, ret, id);
      OfVisitOne(es[..n], es[n], now, ret, id);
      assert es[..n] + [es[n]] == es;
    }
  }

  lemma OfNone<Id>(now: u32, ret: Id -> u32, id: Id)
    ensures Of<Id>([], id) == [] && Calls<Id>([], id) == 0 && VisitAll<Id>([], now, ret) == Visited([], [])
  {
  }

  lemma OfVisitOne<Id>(es: seq<Entry<Id>>, e: Entry<Id>, now: u32, ret: Id -> u32, id: Id)
    requires Of(VisitAll(es, now, ret).kept, id) == VisitAll(Of(es, id), now, ret).kept
    requires Calls(VisitAll(es, now, ret).fired, id) == |VisitAll(Of(es, id), now, ret).fired|
    ensures Of(VisitAll(es + [e], now, ret).kept, id) == VisitAll(Of(es + [e], id), now, ret).kept
    ensures Calls(VisitAll(es + [e], now, ret).fired, id) == |VisitAll(Of(es + [e], id), now, ret).fired|
  {
    hide Of, VisitAll, Calls;
    var v, o := VisitAll(es, now, ret), Visit(e, now, ret(e.id));
    VisitPush(es, e, now, ret);
    OfPush(es, e, id);
    if e.id == id {
      VisitPush(Of(es, id), e, now, ret);
    }
    if o.next.Some? {
      OfPush(v.kept, o.next.value, id);
    }
    CallsPush(v.fired, e.id, id);
  }

  lemma VisitSingle<Id>(e: Entry<Id>, now: u32, ret: Id -> u32)
    ensures VisitAll([e], now, ret) == Extend(Visited([], []), e.id, Visit(e, now, ret(e.id)))
    ensures VisitAll([], now, ret) == Visited([], [])
  {
    assert [e][..0] == [];
  }

  // How one entry holds a status, between ticks, at unbounded tick count `now`.
  ghost predicate Holds<Id>(e: Entry<Id>, st: Status, now: nat, id: Id) {
    match st
    case Off => false
    case DueAt(tick) => Tracks(e, Timer(id, tick), now)
    case Behind(tick) => e == Entry(id, ToU32(now), false) && tick == now + 1 && ToU32(now) < WRAP - 1
  }

  // The list holds the status of one alarm, whatever the others are.
  ghost predicate Follows<Id>(s: System<Id>, st: Status, now: nat, id: Id) {
    var mine := Of(s.entries, id);
    && s.nticks == ToU32(now)
    && if st.Off? then mine == [] else |mine| == 1 && Holds(mine[0], st, now, id)
  }

  // The next tick calls the alarm.
  predicate Due(st: Status, now: nat) {
    st == DueAt(now + 1) || st == Behind(now + 1)
  }

  lemma ArmedHolds<Id>(id: Id, now: nat, n: u32)
    ensures Holds(Armed(id, ToU32(now), n), Follow(Off, now, Start(id, n), id), now, id)
  {
    hide Tracks;
    if Representable(n, ToU32(now)) {
      ArmedTracks(id, now, n);
    }
  }

  // A tick keeps hold of the alarm's status, and calls it exactly when it is due.
  lemma TickHolds<Id>(e: Entry<Id>, st: Status, now: nat, id: Id, ret: Id -> u32)
    requires Holds(e, st, now, id)
    ensures var o, next := Visit(e, ToU32(now + 1), ret(id)), Follow(st, now, Tick(ret), id);
            && (o.called <==> Due(st, now))
            && (o.next.None? <==> next == Off)
            && (o.next.Some? ==> Holds(o.next.value, next, now + 1, id))
  {
    hide Tracks;
    NextSplit(now);
    match st
    case DueAt(tick) =>
      TracksAhead(e, Timer(id, tick), now);
      VisitTracks(e, Timer(id, tick), now, ret(id));
    case Behind(_) =>
      if ret(id) > 0 {
        BehindTracks(id, now, ret(id));
      }
  }

  lemma TracksAhead<Id>(e: Entry<Id>, t: Timer<Id>, now: nat)
    requires Tracks(e, t, now)
    ensures now < t.due
  {
  }

  lemma BehindTracks<Id>(id: Id, now: nat, r: u32)
    requires ToU32(now) < WRAP - 1 && r > 0
    ensures var tick := now + 1; var time := ToU32(ToU32(now) + r);
            Holds(Entry(id, time, time < ToU32(tick)), FollowBehind(tick, r), tick, id)
  {
    NextSplit(now);
    if r >= 2 {
      RearmedTracks(Entry(id, ToU32(now + 1), false), Timer(id, now + 1), now, r - 1);
      Carried(now, r);
    }
  }

  lemma Carried(now: nat, r: u32)
    requires ToU32(now) < WRAP - 1 && r >= 2
    ensures ToU32(ToU32(now) + r) == ToU32(ToU32(now + 1) + (r - 1))
  {
    NextSplit(now);
  }

  // One step, for one alarm: its status is followed, and it is called exactly when due.
  lemma StepFollows<Id>(s: System<Id>, st: Status, now: nat, ev: Event<Id>, id: Id)
    requires Follows(s, st, now, id)
    requires ev.Start? && ev.id == id ==> st == Off
    ensures Follows(Step(s, ev), Follow(st, now, ev, id), if ev.Tick? then now + 1 else now, id)
    ensures Calls(Fired(s, ev), id) == if ev.Tick? && Due(st, now) then 1 else 0
  {
    match ev
    case Start(x, n) => StartFollows(s, st, now, x, n, id);
    case Stop(x) => OfWithout(s.entries, x, id);
    case Tick(ret) => TickFollows(s, st, now, ret, id);
  }

  lemma StartFollows<Id>(s: System<Id>, st: Status, now: nat, x: Id, n: u32, id: Id)
    requires Follows(s, st, now, id) && (x == id ==> st == Off)
    ensures Follows(Step(s, Start(x, n)), Follow(st, now, Start(x, n), id), now, id)
  {
    hide Holds, Armed, Of;
    OfPrepend(Armed(x, s.nticks, n), s.entries, id);
    ArmedId(x, s.nticks, n);
    ArmedHolds(id, now, n);
  }

  lemma ArmedId<Id>(id: Id, now: u32, n: u32)
    ensures Armed(id, now, n).id == id
  {
  }

  lemma TickFollows<Id>(s: System<Id>, st: Status, now: nat, ret: Id -> u32, id: Id)
    requires Follows(s, st, now, id)
    ensures Follows(Step(s, Tick(ret)), Follow(st, now, Tick(ret), id), now + 1, id)
    ensures Calls(Fired(s, Tick(ret)), id) == if Due(st, now) then 1 else 0
  {
    hide Holds, Of, VisitAll, Visit, Calls;
    NextTick(now);
    var mine, tick := Of(s.entries, id), ToU32(now + 1);
    OfVisitAll(s.entries, tick, ret, id);
    if st.Off? {
      VisitSingle(Entry(id, 0, false), tick, ret);
    } else {
      assert mine == [mine[0]];
      HoldsId(mine[0], st, now, id);
      VisitSingle(mine[0], tick, ret);
      TickHolds(mine[0], st, now, id, ret);
    }
  }

  lemma HoldsId<Id>(e: Entry<Id>, st: Status, now: nat, id: Id)
    requires Holds(e, st, now, id)
    ensures e.id == id
  {
  }

  // ---------- Every run ----------

  lemma PrefixStarted<Id>(evs: seq<Event<Id>>, n: nat, id: Id)
    requires StartedOff(evs, id) && n <= |evs|
    ensures StartedOff(evs[..n], id)
  {
    forall k | 0 <= k < n ensures evs[..n][..k] == evs[..k] {}
  }

  lemma BootFollows<Id>(id: Id)
    ensures Follows(Boot(), Off, 0, id)
  {
  }

  // After every run, whatever other alarms do, the list holds the alarm's status.
  lemma {:induction false} RunRefines<Id>(evs: seq<Event<Id>>, id: Id)
    requires StartedOff(evs, id)
    ensures Follows(Run(Boot(), evs), StatusAfter(evs, id), Ticks(evs), id)
  {
    hide Follow, Step, Of;
    if evs == [] {
      BootFollows(id);
    } else {
      var n := |evs| - 1;
      PrefixStarted(evs, n, id);
      RunRefines(evs[..n], id);
      StepFollows(Run(Boot(), evs[..n]), StatusAfter(evs[..n], id), Ticks(evs[..n]), evs[n], id);
    }
  }

  // With intervals that are all representable an alarm is never behind.
  lemma {:induction false} NeverBehind<Id>(evs: seq<Event<Id>>, id: Id)
    requires StartedKept(evs, id)
    ensures !StatusAfter(evs, id).Behind?
  {
    if evs != [] {
      var n := |evs| - 1;
      forall k | 0 <= k < n ensures evs[..n][..k] == evs[..k] {}
      NeverBehind(evs[..n], id);
    }
  }

  // ---------- Exact firing times ----------

  // After any run, an event calls an alarm exactly once if it is the tick the alarm is due at, and
  // not at all otherwise.
  lemma {:induction false} FiresExactlyWhenDue<Id>(past: seq<Event<Id>>, ev: Event<Id>, id: Id)
    requires StartedOff(past, id)
    ensures Calls(CalledBy(past, ev), id) ==
            if ev.Tick? && Due(StatusAfter(past, id), Ticks(past)) then 1 else 0
  {
    RunRefines(past, id);
    if ev.Tick? {
      StepFollows(Run(Boot(), past), StatusAfter(past, id), Ticks(past), ev, id);
    }
  }

  // ---------- Whole runs ----------

  // Two runs one after the other.
  lemma {:induction false} TicksConcat<Id>(a: seq<Event<Id>>, b: seq<Event<Id>>)
    ensures Ticks(a + b) == Ticks(a) + Ticks(b)
  {
    if b == [] {
      assert a + b == a;
    } else {
      var n := |b| - 1;
      assert (a + b)[..|a| + n] == a + b[..n];
      TicksConcat(a, b[..n]);
    }
  }

  // A status stays while nothing starts or stops the alarm and its tick has not come.
  lemma {:induction false} StaysDue<Id>(before: seq<Event<Id>>, wait: seq<Event<Id>>, id: Id)
    requires Undisturbed(wait, id)
    requires var st := StatusAfter(before, id); !st.Off? ==> Ticks(before) + Ticks(wait) < st.tick
    ensures StatusAfter(before + wait, id) == StatusAfter(before, id)
  {
    if wait == [] {
      assert before + wait == before;
    } else {
      var n := |wait| - 1;
      assert (before + wait)[..|before| + n] == before + wait[..n];
      StaysDue(before, wait[..n], id);
      TicksConcat(before, wait[..n]);
    }
  }

  lemma {:induction false} StillStarted<Id>(before: seq<Event<Id>>, wait: seq<Event<Id>>, id: Id)
    requires StartedOff(before, id) && Undisturbed(wait, id)
    ensures StartedOff(before + wait, id)
  {
    var evs := before + wait;
    forall k | 0 <= k < |before| ensures evs[..k] == before[..k] && evs[k] == before[k] {}
    forall k | |before| <= k < |evs| ensures evs[k] == wait[k - |before|] {}
  }

  // How often the n-th event of a wait calls the alarm.
  ghost function CallsIn<Id>(before: seq<Event<Id>>, wait: seq<Event<Id>>, n: nat, id: Id): nat
    requires n < |wait|
  {
    Calls(CalledBy(before + wait[..n], wait[n]), id)
  }

  // The alarm is called once by the last event of the wait and by no other event of it.
  ghost predicate CalledByLastOnly<Id>(before: seq<Event<Id>>, wait: seq<Event<Id>>, id: Id) {
    forall n :: 0 <= n < |wait| ==> CallsIn(before, wait, n, id) == if n == |wait| - 1 then 1 else 0
  }

  ghost predicate NeverCalled<Id>(before: seq<Event<Id>>, wait: seq<Event<Id>>, id: Id) {
    forall n :: 0 <= n < |wait| ==> CallsIn(before, wait, n, id) == 0
  }

  // The wait ends with the tick that makes n ticks.
  ghost predicate EndsOnTick<Id>(wait: seq<Event<Id>>, n: nat) {
    wait != [] && wait[|wait| - 1].Tick? && Ticks(wait) == n
  }

  lemma {:induction false} TicksGrow<Id>(evs: seq<Event<Id>>, n: nat)
    requires n <= |evs|
    ensures Ticks(evs[..n]) <= Ticks(evs)
  {
    if n == |evs| {
      assert evs[..n] == evs;
    } else {
      assert evs[..|evs| - 1][..n] == evs[..n];
      TicksGrow(evs[..|evs| - 1], n);
    }
  }

  // Inside such a wait fewer ticks have passed than its last event completes.
  lemma EarlierTicks<Id>(wait: seq<Event<Id>>, n: nat)
    requires n < |wait| && wait[|wait| - 1].Tick?
    ensures Ticks(wait[..n]) < Ticks(wait)
    ensures wait[n].Tick? ==> (Ticks(wait[..n]) + 1 == Ticks(wait) <==> n == |wait| - 1)
  {
    var front := wait[..|wait| - 1];
    assert front[..n] == wait[..n];
    TicksGrow(front, n);
    if wait[n].Tick? && n < |wait| - 1 {
      var upto := wait[..n + 1];
      assert front[..n + 1] == upto && upto[..n] == wait[..n];
      TicksGrow(front, n + 1);
    }
  }

  lemma PrefixUndisturbed<Id>(wait: seq<Event<Id>>, n: nat, id: Id)
    requires Undisturbed(wait, id) && n <= |wait|
    ensures Undisturbed(wait[..n], id)
  {
  }

  lemma CallInWait<Id>(before: seq<Event<Id>>, wait: seq<Event<Id>>, id: Id, n: nat)
    requires StartedOff(before, id) && Undisturbed(wait, id) && n < |wait|
    requires var st := StatusAfter(before, id); !st.Off? ==> Ticks(before) + Ticks(wait[..n]) < st.tick
    ensures CallsIn(before, wait, n, id) ==
            if wait[n].Tick? && Due(StatusAfter(before, id), Ticks(before) + Ticks(wait[..n])) then 1 else 0
  {
    hide StartedOff, Undisturbed, StatusAfter, Ticks, Calls, Due;
    PrefixUndisturbed(wait, n, id);
    StillStarted(before, wait[..n], id);
    TicksConcat(before, wait[..n]);
    StaysDue(before, wait[..n], id);
    FiresExactlyWhenDue(before + wait[..n], wait[n], id);
  }

  lemma DueIsCalled<Id>(before: seq<Event<Id>>, wait: seq<Event<Id>>, id: Id, due: nat)
    requires StartedOff(before, id) && Undisturbed(wait, id)
    requires var st := StatusAfter(before, id); !st.Off? && st.tick == due
    requires Ticks(before) < due && EndsOnTick(wait, due - Ticks(before))
    ensures CalledByLastOnly(before, wait, id)
  {
    hide StartedOff, Undisturbed, StatusAfter, Ticks, CallsIn;
    forall n | 0 <= n < |wait| ensures CallsIn(before, wait, n, id) == if n == |wait| - 1 then 1 else 0 {
      EarlierTicks(wait, n);
      CallInWait(before, wait, id, n);
    }
  }

  lemma OffIsSilent<Id>(before: seq<Event<Id>>, wait: seq<Event<Id>>, id: Id)
    requires StartedOff(before, id) && Undisturbed(wait, id)
    requires StatusAfter(before, id) == Off
    ensures NeverCalled(before, wait, id)
  {
    hide StartedOff, Undisturbed, StatusAfter, Ticks, CallsIn;
    forall n | 0 <= n < |wait| ensures CallsIn(before, wait, n, id) == 0 {
      CallInWait(before, wait, id, n);
    }
  }

  // One more event; a start finds the alarm off.
  lemma MoreStarted<Id>(before: seq<Event<Id>>, ev: Event<Id>, id: Id)
    requires StartedOff(before, id) && (ev.Start? && ev.id == id ==> StatusAfter(before, id) == Off)
    ensures StartedOff(before + [ev], id)
    ensures StatusAfter(before + [ev], id) == Follow(StatusAfter(before, id), Ticks(before), ev, id)
    ensures Ticks(before + [ev]) == Ticks(before) + if ev.Tick? then 1 else 0
  {
    var evs := before + [ev];
    assert evs[..|before|] == before;
    forall k | 0 <= k < |before| ensures evs[..k] == before[..k] {}
  }

  // An alarm started with a representable interval and left alone is called by the (nticks+1)-th tick
  // that follows, and by none before it, however often the 32-bit counter wraps in between.
  lemma {:induction false} FirstCallOnTime<Id>(before: seq<Event<Id>>, id: Id, nticks: u32, wait: seq<Event<Id>>)
    requires StartedOff(before, id) && StatusAfter(before, id) == Off
    requires Representable(nticks, ToU32(Ticks(before)))
    requires Undisturbed(wait, id) && EndsOnTick(wait, nticks + 1)
    ensures CalledByLastOnly(before + [Start(id, nticks)], wait, id)
  {
    hide StartedOff, Undisturbed, StatusAfter, CalledByLastOnly;
    MoreStarted(before, Start(id, nticks), id);
    DueIsCalled(before + [Start(id, nticks)], wait, id, Ticks(before) + nticks + 1);
  }

  // An alarm whose callback returned r is called again by the r-th tick that follows, and by none
  // before it, unless it was behind; if r is zero it is not called again until it is started.
  lemma NextCallOnTime<Id>(before: seq<Event<Id>>, ret: Id -> u32, id: Id, wait: seq<Event<Id>>)
    requires StartedOff(before, id) && Calls(CalledBy(before, Tick(ret)), id) > 0
    requires Undisturbed(wait, id)
    ensures ret(id) == 0 ==> NeverCalled(before + [Tick(ret)], wait, id)
    ensures ret(id) > 0 && !StatusAfter(before, id).Behind? && EndsOnTick(wait, ret(id)) ==>
              CalledByLastOnly(before + [Tick(ret)], wait, id)
  {
    hide StartedOff, Undisturbed, StatusAfter, Ticks, Calls, CalledByLastOnly, NeverCalled;
    var ticked := before + [Tick(ret)];
    MoreStarted(before, Tick(ret), id);
    FiresExactlyWhenDue(before, Tick(ret), id);
    if ret(id) == 0 {
      OffIsSilent(ticked, wait, id);
    } else if !StatusAfter(before, id).Behind? && EndsOnTick(wait, ret(id)) {
      DueIsCalled(ticked, wait, id, Ticks(before) + 1 + ret(id));
    }
  }

  // A stopped alarm is not called until it is started again.
  lemma {:induction false} StoppedIsSilent<Id>(before: seq<Event<Id>>, id: Id, wait: seq<Event<Id>>)
    requires StartedOff(before, id) && Undisturbed(wait, id)
    ensures NeverCalled(before + [Stop(id)], wait, id)
  {
    hide StartedOff, Undisturbed, StatusAfter, Ticks, NeverCalled;
    MoreStarted(before, Stop(id), id);
    OffIsSilent(before + [Stop(id)], wait, id);
  }

  // ---------- The one interval the rollover bit cannot always hold ----------

  // Started with 2^32-1 at any other counter value, an alarm is called by the very next tick.
  lemma LongestIntervalEarly<Id>(before: seq<Event<Id>>, id: Id, ret: Id -> u32)
    requires StartedOff(before, id) && StatusAfter(before, id) == Off
    requires ToU32(Ticks(before)) < WRAP - 1
    ensures var started := before + [Start(id, WRAP - 1)];
            Calls(CalledBy(started, Tick(ret)), id) == 1 && StatusAfter(started, id).Behind?
  {
    MoreStarted(before, Start(id, WRAP - 1), id);
    FiresExactlyWhenDue(before + [Start(id, WRAP - 1)], Tick(ret), id);
  }

  // How many ticks after it was called behind an alarm that returned r is called again.
  function Gap(r: u32, tick: nat): nat
    requires r > 0
  {
    if r >= 2 then r - 1 else if ToU32(tick) == WRAP - 1 then WRAP else 1
  }

  // Called while behind: r - 1 ticks later for r >= 2, and for r == 1 on time but for the counter's last
  // value, where it misses a whole turn.
  lemma {:induction false} NextCallBehind<Id>(before: seq<Event<Id>>, ret: Id -> u32, id: Id, wait: seq<Event<Id>>)
    requires StartedOff(before, id) && Calls(CalledBy(before, Tick(ret)), id) > 0
    requires StatusAfter(before, id).Behind? && ret(id) > 0
    requires Undisturbed(wait, id) && EndsOnTick(wait, Gap(ret(id), Ticks(before) + 1))
    ensures CalledByLastOnly(before + [Tick(ret)], wait, id)
  {
    hide StartedOff, Undisturbed, StatusAfter, Ticks, Calls, CalledByLastOnly;
    MoreStarted(before, Tick(ret), id);
    FiresExactlyWhenDue(before, Tick(ret), id);
    DueIsCalled(before + [Tick(ret)], wait, id, Ticks(before) + 1 + Gap(ret(id), Ticks(before) + 1));
  }

  ghost predicate TicksOnly<Id>(wait: seq<Event<Id>>) {
    forall k :: 0 <= k < |wait| ==> wait[k].Tick?
  }

  lemma {:induction false} TicksOfTicks<Id>(wait: seq<Event<Id>>)
    requires TicksOnly(wait)
    ensures Ticks(wait) == |wait|
  {
    if wait != [] {
      TicksOfTicks(wait[..|wait| - 1]);
    }
  }

  // Some wait of that many ticks goes wrong.
  lemma LongestIntervalFails<Id>(before: seq<Event<Id>>, id: Id) returns (wait: seq<Event<Id>>)
    requires StartedOff(before, id) && StatusAfter(before, id) == Off
    requires ToU32(Ticks(before)) < WRAP - 1
    ensures TicksOnly(wait) && EndsOnTick(wait, WRAP)
    ensures !CalledByLastOnly(before + [Start(id, WRAP - 1)], wait, id)
  {
    var ret: Id -> u32 := x => 0;
    wait := seq(WRAP, i => Tick(ret));
    TicksOfTicks(wait);
    var started := before + [Start(id, WRAP - 1)];
    assert started + wait[..0] == started;
    LongestIntervalEarly(before, id, ret);
    assert CallsIn(started, wait, 0, id) == 1;
  }

  // An interval is always kept, in every wait, exactly if it is representable: below 2^32-1, or
  // started on the last value of the counter.
  lemma {:induction false} IntervalKeptIff<Id>(before: seq<Event<Id>>, id: Id, nticks: u32)
    requires StartedOff(before, id) && StatusAfter(before, id) == Off
    ensures Representable(nticks, ToU32(Ticks(before))) <==>
            forall wait :: TicksOnly(wait) && EndsOnTick(wait, nticks + 1) ==>
              CalledByLastOnly(before + [Start(id, nticks)], wait, id)
  {
    if Representable(nticks, ToU32(Ticks(before))) {
      forall wait | TicksOnly(wait) && EndsOnTick(wait, nticks + 1)
        ensures CalledByLastOnly(before + [Start(id, nticks)], wait, id)
      {
        FirstCallOnTime(before, id, nticks, wait);
      }
    } else {
      var wait := LongestIntervalFails(before, id);
    }
  }

  // ---------- What a tick leaves of the list ----------

  ghost function Ids<Id>(es: seq<Entry<Id>>): seq<Id> {
    seq(|es|, i requires 0 <= i < |es| => es[i].id)
  }

  // The ids in order, without those in `gone`.
  ghost function Minus<Id>(ids: seq<Id>, gone: set<Id>): seq<Id> {
    if ids == [] then []
    else
      var n := |ids| - 1;
      if ids[n] in gone then Minus(ids[..n], gone) else Minus(ids[..n], gone) + [ids[n]]
  }

  ghost function Retired<Id>(fired: seq<Id>, ret: Id -> u32): set<Id> {
    set id | id in fired && ret(id) == 0
  }

  lemma {:induction false} MinusSame<Id>(ids: seq<Id>, a: set<Id>, b: set<Id>)
    requires forall id :: id in ids ==> (id in a <==> id in b)
    ensures Minus(ids, a) == Minus(ids, b)
  {
    if ids != [] {
      MinusSame(ids[..|ids| - 1], a, b);
    }
  }

  lemma {:induction false} FiredAreVisited<Id>(es: seq<Entry<Id>>, now: u32, ret: Id -> u32)
    ensures forall id :: id in VisitAll(es, now, ret).fired ==> id in Ids(es)
  {
    if es != [] {
      var n := |es| - 1;
      FiredAreVisited(es[..n], now, ret);
      assert Ids(es)[..n] == Ids(es[..n]);
      assert Ids(es)[n] == es[n].id;
    }
  }

  // A tick keeps the registered alarms in order, minus exactly those it called that returned zero.
  lemma {:induction false} TickKeepsOrder<Id>(es: seq<Entry<Id>>, now: u32, ret: Id -> u32)
    requires forall j, k :: 0 <= j < k < |es| ==> es[j].id != es[k].id
    ensures var v := VisitAll(es, now, ret);
            Ids(v.kept) == Minus(Ids(es), Retired(v.fired, ret))
  {
    if es == [] {
    } else {
      var n := |es| - 1;
      var front, v := VisitAll(es[..n], now, ret), VisitAll(es, now, ret);
      TickKeepsOrder(es[..n], now, ret);
      FiredAreVisited(es[..n], now, ret);
      assert Ids(es)[..n] == Ids(es[..n]) && Ids(es)[n] == es[n].id;
      assert es[n].id !in front.fired;
      MinusSame(Ids(es[..n]), Retired(front.fired, ret), Retired(v.fired, ret));
    }
  }
}

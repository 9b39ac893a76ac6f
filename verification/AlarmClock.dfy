/** alt_alarm_start, alt_alarm_stop and alt_tick over the circular doubly linked alarm list. */
module AlarmClock {
  import opened Words
  import opened AlarmSpec

  // struct alt_alarm_s, its alt_llist node first.  The list head is one of these, used for its node only.
  class Alarm {
    var next: Alarm?
    var previous: Alarm?
    var time: u32
    var rollover: u8
  }

  class Clock {
    const head: Alarm
    var nticks: u32
    var tickRate: u32
    var calls: seq<Alarm>                 // the callbacks made so far
    ghost var list: seq<Alarm>            // the registered alarms, from head.next on
    ghost var entries: seq<Entry<Alarm>>  // what they hold
    ghost var Repr: set<Alarm>            // the head and every alarm registered so far

    // The nodes met when walking the whole circle.
    ghost function Ring(): seq<Alarm>
      reads this`list
    {
      [head] + list + [head]
    }

    static ghost predicate Chained(ring: seq<Alarm>)
      reads ring`next, ring`previous
    {
      forall i :: 0 <= i < |ring| - 1 ==> ring[i].next == ring[i + 1] && ring[i + 1].previous == ring[i]
    }

    // Distinct alarms of `repr`, the head not among them.
    static ghost predicate Placed(h: Alarm, alarms: seq<Alarm>, repr: set<Alarm>) {
      && h in repr && h !in alarms
      && (forall i :: 0 <= i < |alarms| ==> alarms[i] in repr)
      && (forall i, j :: 0 <= i < j < |alarms| ==> alarms[i] != alarms[j])
    }

    // The list is a circle through the head, without repetition.
    ghost predicate Linked()
      reads this`list, this`Repr, Repr`next, Repr`previous
    {
      Placed(head, list, Repr) && Chained(Ring())
    }

    ghost predicate Shown()
      reads this`list, this`entries, list`time, list`rollover
    {
      && |entries| == |list|
      && forall i :: 0 <= i < |list| ==> entries[i] == Show(list[i])
    }

    static ghost function Show(a: Alarm): Entry<Alarm>
      reads a`time, a`rollover
    {
      Entry(a, a.time, a.rollover != 0)
    }

    ghost predicate Valid()
      reads this`list, this`entries, this`Repr, Repr
    {
      Linked() && Shown()
    }

    ghost function State(): System<Alarm>
      reads this`nticks, this`entries
    {
      System(nticks, entries)
    }

    constructor (rate: u32)
      ensures Valid() && list == [] && tickRate == rate && calls == []
      ensures State() == Boot()
    {
      var h := new Alarm;
      head := h;
      nticks, tickRate, calls := 0, rate, [];
      list, entries, Repr := [], [], {h};
      new;
      head.next, head.previous := head, head;
    }

    // alt_llist_insert: an entry that is in no circle goes in after node 0 of this one.
    static method LlistInsert(list: Alarm, entry: Alarm, ghost ring: seq<Alarm>)
      requires |ring| > 1 && ring[0] == list && Chained(ring)
      requires forall i :: 0 <= i < |ring| ==> ring[i] != entry
      requires forall i :: 1 <= i < |ring| - 1 ==> ring[i] != list
      requires forall i :: 2 <= i < |ring| ==> ring[i] != ring[1]
      modifies {entry}`next, {entry}`previous, ring`next, ring`previous
      ensures Chained([ring[0], entry] + ring[1..])
    {
      assert ring[0].next == ring[1] && ring[1].previous == ring[0];
      entry.previous := list;
      entry.next := list.next;
      list.next.previous := entry;
      list.next := entry;
      Spliced(ring, entry);
    }

    // alt_alarm_start's insertion at the list head.
    method Insert(entry: Alarm)
      requires Valid() && entry != head && entry !in list
      modifies this`list, this`entries, this`Repr, Repr`next, Repr`previous, entry`next, entry`previous
      ensures Valid() && list == [entry] + old(list) && Repr == old(Repr) + {entry}
      ensures entries == [Show(entry)] + old(entries)
    {
      hide Placed, Chained, Show;
      Admit(head, list, Repr, entry);
      LlistInsert(head, entry, Ring());
      list, Repr := [entry] + list, Repr + {entry};
      entries := [Show(entry)] + entries;
    }

    static lemma Admit(h: Alarm, alarms: seq<Alarm>, repr: set<Alarm>, entry: Alarm)
      requires Placed(h, alarms, repr) && entry != h && entry !in alarms
      ensures var ring := [h] + alarms + [h];
              && (forall i :: 0 <= i < |ring| ==> ring[i] != entry && ring[i] in repr)
              && (forall i :: 1 <= i < |ring| - 1 ==> ring[i] != h)
              && (forall i :: 2 <= i < |ring| ==> ring[i] != ring[1])
              && [h] + ([entry] + alarms) + [h] == [ring[0], entry] + ring[1..]
              && Placed(h, [entry] + alarms, repr + {entry})
    {
    }

    static lemma Spliced(ring: seq<Alarm>, entry: Alarm)
      requires |ring| > 1
      requires ring[0].next == entry && entry.previous == ring[0]
      requires entry.next == ring[1] && ring[1].previous == entry
      requires forall i :: 1 <= i < |ring| - 1 ==> ring[i].next == ring[i + 1] && ring[i + 1].previous == ring[i]
      ensures Chained([ring[0], entry] + ring[1..])
    {
      var more := [ring[0], entry] + ring[1..];
      forall i | 0 <= i < |more| - 1 ensures more[i].next == more[i + 1] && more[i + 1].previous == more[i] {
        assert i >= 2 ==> more[i] == ring[i - 1] && more[i + 1] == ring[i];
      }
    }

    // In the circle, node k+1 and its two neighbours are met nowhere else, save the head at both ends.
    static ghost predicate Isolated(ring: seq<Alarm>, k: nat) {
      && k + 2 < |ring|
      && (forall i :: 0 <= i < |ring| && i != k + 1 ==> ring[i] != ring[k + 1])
      && (forall i :: 0 <= i < |ring| - 1 && i != k ==> ring[i] != ring[k])
      && (forall i :: 1 <= i < |ring| && i != k + 2 ==> ring[i] != ring[k + 2])
    }

    // alt_llist_remove, for node k+1 of a circle or for one that is linked to itself.
    static method LlistRemove(entry: Alarm, ghost ring: seq<Alarm>, ghost k: nat)
      requires ring == [] ==> entry.next == entry.previous == entry
      requires ring != [] ==> Isolated(ring, k) && ring[k + 1] == entry && Chained(ring)
      modifies {entry}`next, {entry}`previous, ring`next, ring`previous
      ensures entry.next == entry.previous == entry
      ensures ring != [] ==> Chained(ring[..k + 1] + ring[k + 2..])
    {
      if ring != [] {
        assert ring[k].next == ring[k + 1] && ring[k + 1].previous == ring[k];
        assert ring[k + 1].next == ring[k + 2] && ring[k + 2].previous == ring[k + 1];
      }
      entry.next.previous := entry.previous;
      entry.previous.next := entry.next;
      entry.previous := entry;
      entry.next := entry;
      if ring != [] {
        Relinked(ring, k);
      }
    }

    static lemma Relinked(ring: seq<Alarm>, k: nat)
      requires k + 2 < |ring|
      requires ring[k].next == ring[k + 2] && ring[k + 2].previous == ring[k]
      requires forall i :: 0 <= i < |ring| - 1 && i != k && i != k + 1 ==>
        ring[i].next == ring[i + 1] && ring[i + 1].previous == ring[i]
      ensures Chained(ring[..k + 1] + ring[k + 2..])
    {
      var rest := ring[..k + 1] + ring[k + 2..];
      forall i | 0 <= i < |rest| - 1 ensures rest[i].next == rest[i + 1] && rest[i + 1].previous == rest[i] {
        var j := if i < k then i else i + 1;
        assert i == k || ring[j].next == ring[j + 1];
      }
    }

    static lemma Cut(h: Alarm, alarms: seq<Alarm>, repr: set<Alarm>, k: nat)
      requires k < |alarms| && Placed(h, alarms, repr)
      ensures var ring, rest := [h] + alarms + [h], alarms[..k] + alarms[k + 1..];
              && Isolated(ring, k) && ring[k + 1] == alarms[k]
              && (forall i :: 0 <= i < |ring| ==> ring[i] in repr)
              && [h] + rest + [h] == ring[..k + 1] + ring[k + 2..]
              && Placed(h, rest, repr)
              && forall i :: 0 <= i < |rest| ==> rest[i] == alarms[if i < k then i else i + 1] && rest[i] != alarms[k]
    {
      hide Placed, Isolated;
      CutRing(h, alarms, repr, k);
      CutRest(h, alarms, repr, k);
    }

    static lemma CutRing(h: Alarm, alarms: seq<Alarm>, repr: set<Alarm>, k: nat)
      requires k < |alarms| && Placed(h, alarms, repr)
      ensures var ring := [h] + alarms + [h];
              Isolated(ring, k) && ring[k + 1] == alarms[k] && forall i :: 0 <= i < |ring| ==> ring[i] in repr
    {
      var ring := [h] + alarms + [h];
      assert forall i :: 1 <= i < |ring| - 1 ==> ring[i] == alarms[i - 1];
    }

    static lemma CutRest(h: Alarm, alarms: seq<Alarm>, repr: set<Alarm>, k: nat)
      requires k < |alarms| && Placed(h, alarms, repr)
      ensures var ring, rest := [h] + alarms + [h], alarms[..k] + alarms[k + 1..];
              && [h] + rest + [h] == ring[..k + 1] + ring[k + 2..]
              && Placed(h, rest, repr)
              && forall i :: 0 <= i < |rest| ==> rest[i] == alarms[if i < k then i else i + 1] && rest[i] != alarms[k]
    {
      var rest := alarms[..k] + alarms[k + 1..];
      assert forall i :: 0 <= i < |rest| ==> rest[i] == alarms[if i < k then i else i + 1];
    }

    // Taking one alarm out of distinct entries takes out its position.
    static lemma {:induction false} WithoutOther(es: seq<Entry<Alarm>>, id: Alarm)
      requires forall i :: 0 <= i < |es| ==> es[i].id != id
      ensures Without(es, id) == es
    {
      if es != [] {
        WithoutOther(es[..|es| - 1], id);
      }
    }

    static lemma {:induction false} WithoutAt(es: seq<Entry<Alarm>>, k: nat)
      requires k < |es|
      requires forall i :: 0 <= i < |es| && i != k ==> es[i].id != es[k].id
      ensures Without(es, es[k].id) == es[..k] + es[k + 1..]
    {
      var n := |es| - 1;
      if k == n {
        assert es[..k] + es[k + 1..] == es[..n];
        WithoutOther(es[..n], es[n].id);
      } else {
        assert es[..n][..k] + es[..n][k + 1..] + [es[n]] == es[..k] + es[k + 1..];
        WithoutAt(es[..n], k);
      }
    }

    // The links of alt_alarm_stop: for the alarm at place k of the list, or (k < 0) one not registered.
    method UnlinkNode(alarm: Alarm, ghost k: int)
      requires Linked() && k < |list| && alarm != head
      requires if 0 <= k then list[k] == alarm else alarm.next == alarm.previous == alarm && alarm !in list
      modifies this`list, Repr`next, Repr`previous, alarm`next, alarm`previous
      ensures Linked() && alarm.next == alarm.previous == alarm
      ensures list == if k < 0 then old(list) else old(list)[..k] + old(list)[k + 1..]
    {
      hide Isolated;
      if 0 <= k {
        Cut(head, list, Repr, k);
      }
      LlistRemove(alarm, if 0 <= k then Ring() else [], if 0 <= k then k else 0);
      if 0 <= k {
        list := list[..k] + list[k + 1..];
      }
    }

    // With what the list holds.
    method Unlink(alarm: Alarm, ghost k: int)
      requires Valid() && k < |list| && alarm != head
      requires if 0 <= k then list[k] == alarm else alarm.next == alarm.previous == alarm && alarm !in list
      modifies this`list, this`entries, Repr`next, Repr`previous, alarm`next, alarm`previous
      ensures Valid() && alarm.next == alarm.previous == alarm
      ensures list == if k < 0 then old(list) else old(list)[..k] + old(list)[k + 1..]
      ensures entries == if k < 0 then old(entries) else old(entries)[..k] + old(entries)[k + 1..]
    {
      hide Linked;
      ghost var was := list;
      UnlinkNode(alarm, k);
      StillShown(was, entries, list, k);
      if 0 <= k {
        entries := entries[..k] + entries[k + 1..];
      }
    }

    // The entries without the k-th show the list without the k-th.
    static lemma StillShown(was: seq<Alarm>, es: seq<Entry<Alarm>>, now: seq<Alarm>, k: int)
      requires |es| == |was| && k < |was|
      requires forall i :: 0 <= i < |was| ==> es[i] == Show(was[i])
      requires now == if k < 0 then was else was[..k] + was[k + 1..]
      ensures var rest := if k < 0 then es else es[..k] + es[k + 1..];
              |rest| == |now| && forall i :: 0 <= i < |now| ==> rest[i] == Show(now[i])
    {
      hide Show;
    }

    // alt_alarm_stop.  Stopping an alarm that is no longer registered, and so is linked to itself, is harmless.
    method Stop(alarm: Alarm)
      requires Valid() && alarm != head
      requires alarm in list || alarm.next == alarm.previous == alarm
      modifies this`list, this`entries, Repr`next, Repr`previous, alarm`next, alarm`previous
      ensures Valid() && alarm.next == alarm.previous == alarm
      ensures State() == Step(old(State()), Event.Stop(alarm))
    {
      ghost var k := -1;
      if alarm in list {
        k :| 0 <= k < |list| && list[k] == alarm;
        WithoutAt(entries, k);
        assert entries[k].id == alarm;
      } else {
        WithoutOther(entries, alarm);
      }
      Unlink(alarm, k);
    }

    // alt_alarm_start.  An alarm is not started while it is registered.
    method Start(alarm: Alarm?, interval: u32) returns (rc: Code)
      requires Valid() && alarm != head
      requires alarm != null ==> alarm !in list
      modifies this`list, this`entries, this`Repr, Repr`next, Repr`previous, alarm
      ensures Valid()
      ensures rc == if tickRate == 0 then Fail(ENOTSUP) else if alarm == null then Fail(EINVAL) else Ok(0)
      ensures rc.Fail? ==> State() == old(State())
      ensures rc.Ok? ==> State() == Step(old(State()), Event.Start(alarm, interval))
    {
      if tickRate != 0 {
        if alarm != null {
          var now := nticks;
          alarm.time := ToU32(interval + now + 1);
          if alarm.time < now {
            alarm.rollover := 1;
          } else {
            alarm.rollover := 0;
          }
          Insert(alarm);
          return Ok(0);
        } else {
          return Fail(EINVAL);
        }
      } else {
        return Fail(ENOTSUP);
      }
    }

    // The fields of one alarm in alt_tick's loop; `stop` when its callback returned zero.
    method Expire(alarm: Alarm, ret: Alarm -> u32) returns (stop: bool)
      modifies this`calls, alarm`time, alarm`rollover
      ensures var o := Visit(old(Show(alarm)), nticks, ret(alarm));
              && calls == (if o.called then old(calls) + [alarm] else old(calls))
              && (stop <==> o.next.None?)
              && (!stop ==> Show(alarm) == o.next.value)
    {
      stop := false;
      if alarm.rollover != 0 && nticks == 0 {
        alarm.rollover := 0;
      }
      if alarm.time <= nticks && alarm.rollover == 0 {
        calls := calls + [alarm];
        var nextCallback := ret(alarm);
        if nextCallback == 0 {
          stop := true;
        } else {
          alarm.time := ToU32(alarm.time + nextCallback);
          if alarm.time < nticks {
            alarm.rollover := 1;
          }
        }
      }
    }

    // The body of alt_tick's loop, for the k-th alarm of the list.
    method VisitOne(alarm: Alarm, ret: Alarm -> u32, ghost k: nat)
      requires Valid() && k < |list| && list[k] == alarm
      modifies this`calls, this`list, this`entries, Repr
      ensures Valid()
      ensures var o := Visit(old(entries[k]), nticks, ret(alarm));
              && calls == (if o.called then old(calls) + [alarm] else old(calls))
              && (o.next.Some? ==> list == old(list) && entries == old(entries)[k := o.next.value])
              && (o.next.None? ==> list == old(list)[..k] + old(list)[k + 1..]
                                   && entries == old(entries)[..k] + old(entries)[k + 1..])
    {
      hide Chained, Visit;
      var stop := Expire(alarm, ret);
      entries := entries[k := Show(alarm)];
      if stop {
        Unlink(alarm, k);
      }
    }

    // Where the walk over `es` stands after k alarms.
    static ghost predicate Walked(es: seq<Entry<Alarm>>, k: nat, now: u32, ret: Alarm -> u32, log: seq<Alarm>,
                                  entries: seq<Entry<Alarm>>, calls: seq<Alarm>)
      requires k <= |es|
    {
      var v := VisitAll(es[..k], now, ret);
      entries == v.kept + es[k..] && calls == log + v.fired
    }

    // The alarm to be visited next, or the head at the end of the walk.
    static ghost function At(es: seq<Entry<Alarm>>, k: nat, now: u32, ret: Alarm -> u32): nat
      requires k <= |es|
    {
      |VisitAll(es[..k], now, ret).kept|
    }

    static lemma WalkStep(es: seq<Entry<Alarm>>, k: nat, now: u32, ret: Alarm -> u32)
      requires k < |es|
      ensures var v, o := VisitAll(es[..k], now, ret), Visit(es[k], now, ret(es[k].id));
              var here, there, at := v.kept + es[k..], VisitAll(es[..k + 1], now, ret), |v.kept|;
              && there.fired == (if o.called then v.fired + [es[k].id] else v.fired)
              && at < |here| && here[at] == es[k]
              && (o.next.Some? ==> |there.kept| == at + 1 && here[at := o.next.value] == there.kept + es[k + 1..])
              && (o.next.None? ==> |there.kept| == at && here[..at] + here[at + 1..] == there.kept + es[k + 1..])
    {
      hide Visit;
      assert es[..k + 1][..k] == es[..k];
    }

    // One round of alt_tick's loop.
    method VisitNext(alarm: Alarm, ret: Alarm -> u32, ghost es: seq<Entry<Alarm>>, ghost k: nat, ghost log: seq<Alarm>)
      returns (next: Alarm)
      requires Valid() && k < |es| && Walked(es, k, nticks, ret, log, entries, calls)
      requires At(es, k, nticks, ret) + 1 < |Ring()| && alarm == Ring()[At(es, k, nticks, ret) + 1]
      modifies this`calls, this`list, this`entries, Repr
      ensures Valid() && Walked(es, k + 1, nticks, ret, log, entries, calls)
      ensures At(es, k + 1, nticks, ret) + 1 < |Ring()| && next == Ring()[At(es, k + 1, nticks, ret) + 1]
    {
      hide *;
      ghost var at, was, had, called := At(es, k, nticks, ret), list, entries, calls;
      WalkStands(es, k, ret, log);
      next := alarm.next;
      VisitOne(alarm, ret, at);
      WalkMoves(head, es, k, nticks, ret, log, was, had, called, list, entries, calls);
      RingIs();
    }

    lemma RingIs()
      ensures Ring() == Circle(head, list)
    {
    }

    static ghost function Circle(h: Alarm, alarms: seq<Alarm>): seq<Alarm> {
      [h] + alarms + [h]
    }

    // What visiting its alarm makes of a walk, and where the link taken before leads now.
    static lemma WalkMoves(h: Alarm, es: seq<Entry<Alarm>>, k: nat, now: u32, ret: Alarm -> u32, log: seq<Alarm>,
                           was: seq<Alarm>, had: seq<Entry<Alarm>>, called: seq<Alarm>,
                           list: seq<Alarm>, entries: seq<Entry<Alarm>>, calls: seq<Alarm>)
      requires k < |es| && Walked(es, k, now, ret, log, had, called)
      requires var at := At(es, k, now, ret); at < |was| == |had| && es[k].id == was[at]
      requires var at, o := At(es, k, now, ret), Visit(had[At(es, k, now, ret)], now, ret(es[k].id));
               && calls == (if o.called then called + [es[k].id] else called)
               && (o.next.Some? ==> list == was && entries == had[at := o.next.value])
               && (o.next.None? ==> list == was[..at] + was[at + 1..] && entries == had[..at] + had[at + 1..])
      ensures Walked(es, k + 1, now, ret, log, entries, calls)
      ensures var at, at' := At(es, k, now, ret), At(es, k + 1, now, ret);
              at' + 1 < |Circle(h, list)| && Circle(h, list)[at' + 1] == Circle(h, was)[at + 2]
    {
      hide Visit, VisitAll;
      WalkStep(es, k, now, ret);
    }

    // Short of its end the walk stands at a registered alarm, whose link leads on around the circle.
    lemma WalkStands(es: seq<Entry<Alarm>>, k: nat, ret: Alarm -> u32, log: seq<Alarm>)
      requires k < |es| && Valid() && Walked(es, k, nticks, ret, log, entries, calls)
      ensures var at := At(es, k, nticks, ret);
              && at < |list| == |entries| && es[k].id == list[at] && Ring()[at + 1] == list[at]
              && Ring()[at + 1].next != null && Ring()[at + 1].next == Circle(head, list)[at + 2]
    {
      hide Placed, VisitAll;
      var at := At(es, k, nticks, ret);
      var following: Alarm := Circle(head, list)[at + 2];
      assert Ring()[at + 1].next == Ring()[at + 2] == following;
    }

    // The walk is over when it is back at the head, and not before.
    lemma WalkMeets(es: seq<Entry<Alarm>>, k: nat, ret: Alarm -> u32, log: seq<Alarm>)
      requires k <= |es| && Valid() && Walked(es, k, nticks, ret, log, entries, calls)
      ensures At(es, k, nticks, ret) + 1 < |Ring()|
      ensures Ring()[At(es, k, nticks, ret) + 1] == head <==> k == |es|
      ensures k < |es| ==> Ring()[At(es, k, nticks, ret) + 1] in list
      ensures k == |es| ==> entries == VisitAll(es, nticks, ret).kept && calls == log + VisitAll(es, nticks, ret).fired
    {
      hide VisitAll;
      var at := At(es, k, nticks, ret);
      assert |list| == at + |es| - k;
      assert Ring()[at + 1] == if k < |es| then list[at] else head;
      if k == |es| {
        assert es[..k] == es && entries == VisitAll(es, nticks, ret).kept;
      }
    }

    lemma WalkStarts(ret: Alarm -> u32)
      requires Valid()
      ensures Walked(entries, 0, nticks, ret, calls, entries, calls)
      ensures At(entries, 0, nticks, ret) == 0 && head.next == Ring()[1]
    {
      assert Ring()[0].next == Ring()[1] && entries[..0] == [];
    }

    // alt_tick's walk over the list, once the counter has been advanced.
    method ProcessAlarms(ret: Alarm -> u32)
      requires Valid()
      modifies this`calls, this`list, this`entries, Repr
      ensures Valid()
      ensures entries == VisitAll(old(entries), nticks, ret).kept
      ensures calls == old(calls) + VisitAll(old(entries), nticks, ret).fired
    {
      hide Walked, At, Ring, Valid, Linked, Shown, VisitAll;
      ghost var es, log, k := entries, calls, 0;
      WalkStarts(ret);
      var alarm: Alarm? := head.next;
      WalkMeets(es, k, ret, log);
      while alarm != head
        invariant k <= |es| && Valid() && Walked(es, k, nticks, ret, log, entries, calls)
        invariant At(es, k, nticks, ret) + 1 < |Ring()| && alarm == Ring()[At(es, k, nticks, ret) + 1]
        decreases |es| - k
      {
        WalkMeets(es, k, ret, log);
        alarm := VisitNext(alarm, ret, es, k, log);
        k := k + 1;
        WalkMeets(es, k, ret, log);
      }
      WalkMeets(es, k, ret, log);
    }

    // alt_tick, where ret gives what each alarm's callback returns if this tick calls it.
    method Tick(ret: Alarm -> u32)
      requires Valid()
      modifies this`nticks, this`calls, this`list, this`entries, Repr
      ensures Valid()
      ensures State() == Step(old(State()), Event.Tick(ret))
      ensures calls == old(calls) + Fired(old(State()), Event.Tick(ret))
    {
      hide Valid, Linked, Shown, VisitAll, ToU32;
      nticks := ToU32(nticks + 1);
      ProcessAlarms(ret);
    }
  }
}

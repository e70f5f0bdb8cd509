/**
 * The reconciliation loop of `main`: the remote calendar's events are
 * compared with the built schedule, one by one, and the calendar calls
 * that follow are recorded as a plan of operations.
 */
module Reconcile {
  import opened Wrappers
  import opened Dicts
  import opened Events

  /** A calendar call: `delete_event`, `update_event` or `add_event`. */
  datatype Op = DeleteEvent(event: Event) | UpdateEvent(event: Event) | AddEvent(event: Event)

  /**
   * One remote event against the events still pending: an event whose key is
   * not pending is deleted; otherwise the pending event under that key is sent
   * as an update carrying the remote event's id when the reminders differ, and
   * the key stops being pending.
   */
  function Step(pending: Dict<Key, Event>, remote: Event): (r: (seq<Op>, Dict<Key, Event>))
    requires pending.Valid()
    ensures r.1.Valid()
  {
    var k := KeyOf(remote);
    if k !in pending.entries then ([DeleteEvent(remote)], pending)
    else
      var wanted := pending.entries[k];
      (if remote.reminders != wanted.reminders then [UpdateEvent(wanted.(eventId := remote.eventId))] else [],
       Pop(pending, k))
  }

  /** The remote events in order: the operations they cause and what is left pending after them. */
  function Sweep(pending: Dict<Key, Event>, remote: seq<Event>): (r: (seq<Op>, Dict<Key, Event>))
    requires pending.Valid()
    ensures r.1.Valid()
    decreases |remote|
  {
    if remote == [] then ([], pending)
    else
      var step := Step(pending, remote[0]);
      var rest := Sweep(step.1, remote[1..]);
      (step.0 + rest.0, rest.1)
  }

  /** One `add_event` per event, in order. */
  function Adds(events: seq<Event>): (ops: seq<Op>)
    ensures |ops| == |events|
    ensures forall i :: 0 <= i < |events| ==> ops[i] == AddEvent(events[i])
  {
    seq(|events|, i requires 0 <= i < |events| => AddEvent(events[i]))
  }

  /**
   * The whole plan: the sweep over the remote events, then an addition for
   * every event still pending. It is the fate of every remote event in order,
   * then an addition for every scheduled event whose key no remote event has,
   * in the schedule's order.
   */
  function Plan(canonical: Dict<Key, Event>, remote: seq<Event>): (ops: seq<Op>)
    requires canonical.Valid()
    ensures ops == Fates(canonical, {}, remote) + Adds(Values(Without(canonical, KeysOf(remote))))
  {
    WithoutNothing(canonical);
    SweepByFates(canonical, {}, remote);
    assert {} + KeysOf(remote) == KeysOf(remote);
    var swept := Sweep(canonical, remote);
    swept.0 + Adds(Values(swept.1))
  }

  lemma SweepStep(pending: Dict<Key, Event>, remote: seq<Event>, i: nat)
    requires pending.Valid() && i < |remote|
    ensures Sweep(pending, remote[i..]).0 == Step(pending, remote[i]).0 + Sweep(Step(pending, remote[i]).1, remote[i + 1..]).0
    ensures Sweep(pending, remote[i..]).1 == Sweep(Step(pending, remote[i]).1, remote[i + 1..]).1
  {
    assert remote[i..][0] == remote[i] && remote[i..][1..] == remote[i + 1..];
  }

  /** The remote-event loop's invariant survives one more remote event. */
  lemma SweepAdvance(canonical: Dict<Key, Event>, remote: seq<Event>, i: nat, pending: Dict<Key, Event>, ops: seq<Op>)
    requires canonical.Valid() && pending.Valid() && i < |remote|
    requires Sweep(canonical, remote).0 == ops + Sweep(pending, remote[i..]).0
    requires Sweep(canonical, remote).1 == Sweep(pending, remote[i..]).1
    ensures Sweep(canonical, remote).0 == ops + Step(pending, remote[i]).0 + Sweep(Step(pending, remote[i]).1, remote[i + 1..]).0
    ensures Sweep(canonical, remote).1 == Sweep(Step(pending, remote[i]).1, remote[i + 1..]).1
  {
    SweepStep(pending, remote, i);
    var step := Step(pending, remote[i]);
    var rest := Sweep(step.1, remote[i + 1..]);
    AppendAssociative(ops, step.0, rest.0);
  }

  /**
   * The loops of `main` after the schedule is built: every remote event is
   * deleted, updated or left alone and its key popped; the events never
   * popped are added in the dictionary's order.
   */
  method Reconcile(canonical: Dict<Key, Event>, remote: seq<Event>) returns (ops: seq<Op>)
    requires canonical.Valid()
    ensures ops == Plan(canonical, remote)
  {
    var pending := canonical;
    ops := [];
    var i := 0;
    assert remote[0..] == remote;
    assert [] + Sweep(pending, remote[0..]).0 == Sweep(pending, remote[0..]).0;
    while i < |remote|
      invariant 0 <= i <= |remote|
      invariant pending.Valid()
      invariant Sweep(canonical, remote).0 == ops + Sweep(pending, remote[i..]).0
      invariant Sweep(canonical, remote).1 == Sweep(pending, remote[i..]).1
    {
      var event := remote[i];
      var key := KeyOf(event);
      ghost var before, waiting := ops, pending;
      ghost var step := Step(pending, event);
      if key !in pending.entries {
        ops := ops + [DeleteEvent(event)];
      } else {
        var wanted := pending.entries[key];
        if event.reminders != wanted.reminders {
          ops := ops + [UpdateEvent(wanted.(eventId := event.eventId))];
        } else {
          assert before + [] == before;
        }
        pending := Pop(pending, key);
      }
      assert ops == before + step.0 && pending == step.1;
      SweepAdvance(canonical, remote, i, waiting, before);
      i := i + 1;
    }
    var added := AddAll(Values(pending));
    ops := ops + added;
  }

  /** The final loop of `main`: `add_event` for each pending event, in the dictionary's order. */
  method AddAll(values: seq<Event>) returns (ops: seq<Op>)
    ensures ops == Adds(values)
  {
    ops := [];
    var j := 0;
    while j < |values|
      invariant 0 <= j <= |values|
      invariant ops == Adds(values[..j])
    {
      assert Adds(values[..j + 1]) == Adds(values[..j]) + [AddEvent(values[j])];
      ops := ops + [AddEvent(values[j])];
      j := j + 1;
    }
    assert values[..j] == values;
  }

  // ---------------------------------------------------------------------------
  // The plan stated without the shrinking dictionary.

  /** The keys of a list of events. */
  function KeysOf(events: seq<Event>): (keys: set<Key>)
    ensures forall i :: 0 <= i < |events| ==> KeyOf(events[i]) in keys
    decreases |events|
  {
    if events == [] then {} else {KeyOf(events[0])} + KeysOf(events[1..])
  }

  /**
   * What happens to one remote event, given the keys of the remote events
   * before it: deleted when its key is not in the schedule or already claimed,
   * otherwise updated from the schedule exactly when the reminders differ.
   */
  function Fate(canonical: Dict<Key, Event>, seen: set<Key>, remote: Event): (ops: seq<Op>)
    requires canonical.Valid()
  {
    var k := KeyOf(remote);
    if k !in canonical.entries || k in seen then [DeleteEvent(remote)]
    else if remote.reminders != canonical.entries[k].reminders then
      [UpdateEvent(canonical.entries[k].(eventId := remote.eventId))]
    else []
  }

  /** The fates of the remote events in order, each judged against the keys before it. */
  function Fates(canonical: Dict<Key, Event>, seen: set<Key>, remote: seq<Event>): seq<Op>
    requires canonical.Valid()
    decreases |remote|
  {
    if remote == [] then []
    else Fate(canonical, seen, remote[0]) + Fates(canonical, seen + {KeyOf(remote[0])}, remote[1..])
  }

  /**
   * Popping the matched keys leaves, after any prefix of the remote events,
   * exactly the schedule without the keys seen so far.
   */
  lemma {:induction false} SweepByFates(canonical: Dict<Key, Event>, seen: set<Key>, remote: seq<Event>)
    requires canonical.Valid()
    ensures Sweep(Without(canonical, seen), remote).0 == Fates(canonical, seen, remote)
    ensures Sweep(Without(canonical, seen), remote).1 == Without(canonical, seen + KeysOf(remote))
    decreases |remote|
  {
    var pending := Without(canonical, seen);
    if remote == [] {
      assert seen + KeysOf(remote) == seen;
    } else {
      var e, tail := remote[0], remote[1..];
      var k := KeyOf(e);
      var step := Step(pending, e);
      if k in pending.entries {
        PopWithout(canonical, seen, k);
      } else {
        WithoutAbsent(canonical, seen, k);
      }
      assert step.0 == Fate(canonical, seen, e);
      assert step.1 == Without(canonical, seen + {k});
      SweepByFates(canonical, seen + {k}, tail);
      assert seen + {k} + KeysOf(tail) == seen + KeysOf(remote);
    }
  }

  lemma {:induction false} KeysOfAppend(a: seq<Event>, b: seq<Event>)
    ensures KeysOf(a + b) == KeysOf(a) + KeysOf(b)
    decreases |a|
  {
    if a == [] {
      assert a + b == b;
    } else {
      assert (a + b)[0] == a[0] && (a + b)[1..] == a[1..] + b;
      KeysOfAppend(a[1..], b);
    }
  }

  /** Every key of the list belongs to one of its events. */
  lemma {:induction false} KeysOfMembers(events: seq<Event>, k: Key)
    requires k in KeysOf(events)
    ensures exists i :: 0 <= i < |events| && KeyOf(events[i]) == k
    decreases |events|
  {
    if KeyOf(events[0]) != k {
      KeysOfMembers(events[1..], k);
      var i :| 0 <= i < |events[1..]| && KeyOf(events[1..][i]) == k;
      assert events[i + 1] == events[1..][i];
    }
  }

  lemma {:induction false} FatesAppend(canonical: Dict<Key, Event>, seen: set<Key>, a: seq<Event>, b: seq<Event>)
    requires canonical.Valid()
    ensures Fates(canonical, seen, a + b) == Fates(canonical, seen, a) + Fates(canonical, seen + KeysOf(a), b)
    decreases |a|
  {
    if a == [] {
      assert a + b == b && seen + KeysOf(a) == seen;
      AppendAssociative<Op>([], [], Fates(canonical, seen, b));
    } else {
      var x := a[0];
      assert (a + b)[0] == x && (a + b)[1..] == a[1..] + b;
      FatesAppend(canonical, seen + {KeyOf(x)}, a[1..], b);
      assert seen + {KeyOf(x)} + KeysOf(a[1..]) == seen + KeysOf(a);
      AppendAssociative(Fate(canonical, seen, x), Fates(canonical, seen + {KeyOf(x)}, a[1..]),
                        Fates(canonical, seen + KeysOf(a), b));
    }
  }

  /**
   * The plan around the j-th remote event: the operations of the events before
   * it, then its own fate judged against the keys of the events before it,
   * then the operations of the events after it.
   */
  lemma PlanAt(canonical: Dict<Key, Event>, remote: seq<Event>, j: nat)
    requires canonical.Valid() && j < |remote|
    ensures Plan(canonical, remote)
      == Fates(canonical, {}, remote[..j])
       + Fate(canonical, KeysOf(remote[..j]), remote[j])
       + Fates(canonical, KeysOf(remote[..j + 1]), remote[j + 1..])
       + Adds(Values(Without(canonical, KeysOf(remote))))
  {
    var before, here, after := remote[..j], remote[j], remote[j + 1..];
    var adds := Adds(Values(Without(canonical, KeysOf(remote))));
    assert remote == before + [here] + after;
    FatesSplit(canonical, before + [here], after);
    assert remote[..j + 1] == before + [here];
    FatesSnoc(canonical, before, here);
  }

  lemma FatesSplit(canonical: Dict<Key, Event>, a: seq<Event>, b: seq<Event>)
    requires canonical.Valid()
    ensures Fates(canonical, {}, a + b) == Fates(canonical, {}, a) + Fates(canonical, KeysOf(a), b)
  {
    FatesAppend(canonical, {}, a, b);
    assert {} + KeysOf(a) == KeysOf(a);
  }

  lemma FatesSnoc(canonical: Dict<Key, Event>, before: seq<Event>, here: Event)
    requires canonical.Valid()
    ensures Fates(canonical, {}, before + [here]) == Fates(canonical, {}, before) + Fate(canonical, KeysOf(before), here)
  {
    FatesSplit(canonical, before, [here]);
    FatesOne(canonical, KeysOf(before), here);
  }

  lemma FatesOne(canonical: Dict<Key, Event>, seen: set<Key>, remote: Event)
    requires canonical.Valid()
    ensures Fates(canonical, seen, [remote]) == Fate(canonical, seen, remote)
  {
    assert [remote][1..] == [];
    AppendNothing(Fate(canonical, seen, remote));
  }

  /** A remote event whose key an earlier remote event already claimed is deleted. */
  lemma DuplicateDeleted(canonical: Dict<Key, Event>, remote: seq<Event>, i: nat, j: nat)
    requires canonical.Valid() && i < j < |remote| && KeyOf(remote[i]) == KeyOf(remote[j])
    ensures DeleteEvent(remote[j]) in Plan(canonical, remote)
  {
    PlanAt(canonical, remote, j);
    assert remote[..j][i] == remote[i];
    assert Fate(canonical, KeysOf(remote[..j]), remote[j]) == [DeleteEvent(remote[j])];
  }

  /** The sweep over the remote events only deletes and updates. */
  lemma {:induction false} FatesAddNothing(canonical: Dict<Key, Event>, seen: set<Key>, remote: seq<Event>)
    requires canonical.Valid()
    ensures forall op :: op in Fates(canonical, seen, remote) ==> !op.AddEvent?
    decreases |remote|
  {
    if remote != [] {
      FatesAddNothing(canonical, seen + {KeyOf(remote[0])}, remote[1..]);
    }
  }

  /**
   * The additions are exactly the scheduled events under the keys that no
   * remote event has: each such event is added, and nothing else is.
   */
  lemma AddedExactly(canonical: Dict<Key, Event>, remote: seq<Event>)
    requires canonical.Valid()
    ensures forall k :: k in canonical.entries && k !in KeysOf(remote) ==>
      AddEvent(canonical.entries[k]) in Plan(canonical, remote)
    ensures forall e :: AddEvent(e) in Plan(canonical, remote) ==>
      exists k :: k in canonical.entries && k !in KeysOf(remote) && canonical.entries[k] == e
  {
    FatesAddNothing(canonical, {}, remote);
    var swept := Fates(canonical, {}, remote);
    var left := Without(canonical, KeysOf(remote));
    var values := Values(left);
    var adds := Adds(values);
    assert Plan(canonical, remote) == swept + adds;
    forall k | k in canonical.entries && k !in KeysOf(remote)
      ensures AddEvent(canonical.entries[k]) in Plan(canonical, remote)
    {
      assert k in left.entries;
      assert k in left.order;
      var i :| 0 <= i < |left.order| && left.order[i] == k;
      assert adds[i] == AddEvent(canonical.entries[k]);
    }
    forall e | AddEvent(e) in Plan(canonical, remote)
      ensures exists k :: k in canonical.entries && k !in KeysOf(remote) && canonical.entries[k] == e
    {
      assert AddEvent(e) !in swept;
      var i :| 0 <= i < |adds| && adds[i] == AddEvent(e);
      var k := left.order[i];
      assert k in left.entries && canonical.entries[k] == e;
    }
  }

  /**
   * The remote events need nothing from the schedule, judged against the keys
   * `seen` before them: each has a scheduled key not seen yet, the scheduled
   * event's reminders, and a key no other of them has.
   */
  predicate Quiet(canonical: Dict<Key, Event>, seen: set<Key>, remote: seq<Event>) {
    && (forall i :: 0 <= i < |remote| ==>
          && KeyOf(remote[i]) in canonical.entries
          && KeyOf(remote[i]) !in seen
          && remote[i].reminders == canonical.entries[KeyOf(remote[i])].reminders)
    && (forall i, j :: 0 <= i < j < |remote| ==> KeyOf(remote[i]) != KeyOf(remote[j]))
  }

  lemma QuietStep(canonical: Dict<Key, Event>, seen: set<Key>, remote: seq<Event>)
    requires canonical.Valid() && remote != []
    ensures Quiet(canonical, seen, remote) <==>
      Fate(canonical, seen, remote[0]) == [] && Quiet(canonical, seen + {KeyOf(remote[0])}, remote[1..])
  {
    var x, tail := remote[0], remote[1..];
    assert forall i :: 0 <= i < |tail| ==> tail[i] == remote[i + 1];
    if Fate(canonical, seen, x) == [] && Quiet(canonical, seen + {KeyOf(x)}, tail) {
      forall i, j | 0 <= i < j < |remote| ensures KeyOf(remote[i]) != KeyOf(remote[j]) {
        if i > 0 {
          assert KeyOf(tail[i - 1]) != KeyOf(tail[j - 1]);
        } else {
          assert KeyOf(tail[j - 1]) !in seen + {KeyOf(x)};
        }
      }
      forall i | 0 <= i < |remote|
        ensures KeyOf(remote[i]) in canonical.entries && KeyOf(remote[i]) !in seen
      {
        if i > 0 {
          assert KeyOf(tail[i - 1]) !in seen + {KeyOf(x)};
        }
      }
    }
  }

  lemma {:induction false} FatesQuiet(canonical: Dict<Key, Event>, seen: set<Key>, remote: seq<Event>)
    requires canonical.Valid()
    ensures Fates(canonical, seen, remote) == [] <==> Quiet(canonical, seen, remote)
    decreases |remote|
  {
    if remote != [] {
      QuietStep(canonical, seen, remote);
      FatesQuiet(canonical, seen + {KeyOf(remote[0])}, remote[1..]);
    }
  }

  /**
   * The calendar already mirrors the schedule: one remote event per scheduled
   * key, no other remote events, and the scheduled reminders on each.
   */
  predicate InSync(canonical: Dict<Key, Event>, remote: seq<Event>) {
    && Quiet(canonical, {}, remote)
    && (forall k :: k in canonical.entries ==> k in KeysOf(remote))
  }

  /** The plan is empty exactly when the calendar already mirrors the schedule. */
  lemma EmptyPlanIffInSync(canonical: Dict<Key, Event>, remote: seq<Event>)
    requires canonical.Valid()
    ensures Plan(canonical, remote) == [] <==> InSync(canonical, remote)
  {
    FatesQuiet(canonical, {}, remote);
    var left := Without(canonical, KeysOf(remote));
    assert |Adds(Values(left))| == |left.order|;
    if left.order != [] {
      assert left.order[0] in left.entries;
    }
    assert left.order == [] <==> forall k :: k in canonical.entries ==> k in KeysOf(remote) by {
      if left.order == [] {
        assert left.entries.Keys == {};
        assert canonical.entries.Keys - KeysOf(remote) == {};
      }
    }
  }

  // ---------------------------------------------------------------------------
  // The calendar after the plan, and the next cycle against it.

  /** Each calendar event with the given id replaced by `into`; the others kept in place. */
  function Rewrite(calendar: seq<Event>, id: Option<string>, into: seq<Event>): seq<Event>
    decreases |calendar|
  {
    if calendar == [] then []
    else (if calendar[0].eventId == id then into else [calendar[0]]) + Rewrite(calendar[1..], id, into)
  }

  /**
   * The calendar backend carrying out one call: a deletion removes the event
   * with that id, an update replaces it, an addition appends a new event.
   */
  function Apply(calendar: seq<Event>, op: Op): seq<Event> {
    match op
    case DeleteEvent(e) => Rewrite(calendar, e.eventId, [])
    case UpdateEvent(e) => Rewrite(calendar, e.eventId, [e])
    case AddEvent(e) => calendar + [e]
  }

  function ApplyAll(calendar: seq<Event>, ops: seq<Op>): seq<Event>
    decreases |ops|
  {
    if ops == [] then calendar else ApplyAll(Apply(calendar, ops[0]), ops[1..])
  }

  /** No two calendar events share an id. */
  predicate DistinctIds(calendar: seq<Event>) {
    forall i, j :: 0 <= i < j < |calendar| ==> calendar[i].eventId != calendar[j].eventId
  }

  /** No event of `calendar` has the given id. */
  predicate LacksId(calendar: seq<Event>, id: Option<string>) {
    forall i :: 0 <= i < |calendar| ==> calendar[i].eventId != id
  }

  lemma {:induction false} RewriteAppend(a: seq<Event>, b: seq<Event>, id: Option<string>, into: seq<Event>)
    ensures Rewrite(a + b, id, into) == Rewrite(a, id, into) + Rewrite(b, id, into)
    decreases |a|
  {
    if a == [] {
      assert a + b == b;
      AppendAssociative<Event>([], [], Rewrite(b, id, into));
    } else {
      assert (a + b)[0] == a[0] && (a + b)[1..] == a[1..] + b;
      RewriteAppend(a[1..], b, id, into);
      var head := if a[0].eventId == id then into else [a[0]];
      AppendAssociative(head, Rewrite(a[1..], id, into), Rewrite(b, id, into));
    }
  }

  lemma {:induction false} RewriteAbsent(a: seq<Event>, id: Option<string>, into: seq<Event>)
    requires LacksId(a, id)
    ensures Rewrite(a, id, into) == a
    decreases |a|
  {
    if a != [] {
      assert LacksId(a[1..], id) by {
        forall i | 0 <= i < |a[1..]| ensures a[1..][i].eventId != id {
          assert a[1..][i] == a[i + 1];
        }
      }
      RewriteAbsent(a[1..], id, into);
      assert [a[0]] + a[1..] == a;
    }
  }

  /** A call aimed at the one event with that id leaves the events around it alone. */
  lemma RewriteOne(p: seq<Event>, x: Event, t: seq<Event>, into: seq<Event>)
    requires LacksId(p, x.eventId) && LacksId(t, x.eventId)
    ensures Rewrite(p + [x] + t, x.eventId, into) == p + into + t
  {
    var id := x.eventId;
    RewriteAppend(p + [x], t, id, into);
    RewriteAppend(p, [x], id, into);
    RewriteAbsent(p, id, into);
    RewriteAbsent(t, id, into);
    assert [x][1..] == [];
    assert Rewrite([x], id, into) == into + Rewrite([], id, into);
    AppendNothing(into);
    assert Rewrite(p + [x], id, into) == p + into;
  }


  lemma {:induction false} ApplyAllAppend(calendar: seq<Event>, a: seq<Op>, b: seq<Op>)
    ensures ApplyAll(calendar, a + b) == ApplyAll(ApplyAll(calendar, a), b)
    decreases |a|
  {
    if a == [] {
      assert a + b == b;
    } else {
      assert (a + b)[0] == a[0] && (a + b)[1..] == a[1..] + b;
      ApplyAllAppend(Apply(calendar, a[0]), a[1..], b);
    }
  }

  lemma {:induction false} ApplyAdds(calendar: seq<Event>, events: seq<Event>)
    ensures ApplyAll(calendar, Adds(events)) == calendar + events
    decreases |events|
  {
    if events == [] {
      assert calendar + events == calendar;
    } else {
      var adds := Adds(events);
      assert adds[1..] == Adds(events[1..]);
      ApplyAdds(calendar + [events[0]], events[1..]);
      AppendAssociative(calendar, [events[0]], events[1..]);
      assert [events[0]] + events[1..] == events;
    }
  }

  /** What remains of one remote event once its fate is carried out. */
  function Kept(canonical: Dict<Key, Event>, seen: set<Key>, remote: Event): seq<Event>
    requires canonical.Valid()
  {
    var k := KeyOf(remote);
    if k !in canonical.entries || k in seen then []
    else if remote.reminders != canonical.entries[k].reminders then [canonical.entries[k].(eventId := remote.eventId)]
    else [remote]
  }

  function Survivors(canonical: Dict<Key, Event>, seen: set<Key>, remote: seq<Event>): seq<Event>
    requires canonical.Valid()
    decreases |remote|
  {
    if remote == [] then []
    else Kept(canonical, seen, remote[0]) + Survivors(canonical, seen + {KeyOf(remote[0])}, remote[1..])
  }

  lemma ApplyFate(canonical: Dict<Key, Event>, seen: set<Key>, p: seq<Event>, x: Event, t: seq<Event>)
    requires canonical.Valid() && LacksId(p, x.eventId) && LacksId(t, x.eventId)
    ensures ApplyAll(p + [x] + t, Fate(canonical, seen, x)) == p + Kept(canonical, seen, x) + t
  {
    var fate := Fate(canonical, seen, x);
    if fate == [] {
      assert Kept(canonical, seen, x) == [x];
    } else {
      assert fate[1..] == [];
      RewriteOne(p, x, t, Kept(canonical, seen, x));
    }
  }

  /**
   * Carrying out the fates of the remote events, in order, on a calendar that
   * holds them after some events with other ids, leaves those events followed
   * by the survivors.
   */
  lemma {:induction false} ApplyFates(canonical: Dict<Key, Event>, seen: set<Key>, p: seq<Event>, remote: seq<Event>)
    requires canonical.Valid() && DistinctIds(remote)
    requires forall i, j :: 0 <= i < |p| && 0 <= j < |remote| ==> p[i].eventId != remote[j].eventId
    ensures ApplyAll(p + remote, Fates(canonical, seen, remote)) == p + Survivors(canonical, seen, remote)
    decreases |remote|
  {
    if remote == [] {
      assert p + remote == p && p + [] == p;
    } else {
      var x, t := remote[0], remote[1..];
      var k := KeyOf(x);
      var kept := Kept(canonical, seen, x);
      assert remote == [x] + t;
      AppendAssociative(p, [x], t);
      ApplyAllAppend(p + remote, Fate(canonical, seen, x), Fates(canonical, seen + {k}, t));
      assert LacksId(t, x.eventId) by {
        forall i | 0 <= i < |t| ensures t[i].eventId != x.eventId {
          assert t[i] == remote[i + 1];
        }
      }
      assert LacksId(p, x.eventId) by {
        forall i | 0 <= i < |p| ensures p[i].eventId != x.eventId {
          assert remote[0] == x;
        }
      }
      ApplyFate(canonical, seen, p, x, t);
      assert DistinctIds(t) by {
        forall i, j | 0 <= i < j < |t| ensures t[i].eventId != t[j].eventId {
          assert t[i] == remote[i + 1] && t[j] == remote[j + 1];
        }
      }
      var p' := p + kept;
      forall i, j | 0 <= i < |p'| && 0 <= j < |t| ensures p'[i].eventId != t[j].eventId {
        assert t[j] == remote[j + 1];
        if i >= |p| {
          assert p'[i] == kept[i - |p|];
        }
      }
      ApplyFates(canonical, seen + {k}, p', t);
      AppendAssociative(p, kept, Survivors(canonical, seen + {k}, t));
    }
  }

  /** The calendar after the plan: the surviving remote events, then the added ones. */
  lemma Outcome(canonical: Dict<Key, Event>, remote: seq<Event>)
    requires canonical.Valid() && DistinctIds(remote)
    ensures ApplyAll(remote, Plan(canonical, remote))
         == Survivors(canonical, {}, remote) + Values(Without(canonical, KeysOf(remote)))
  {
    var adds := Adds(Values(Without(canonical, KeysOf(remote))));
    ApplyAllAppend(remote, Fates(canonical, {}, remote), adds);
    ApplyFates(canonical, {}, [], remote);
    assert [] + remote == remote;
    assert [] + Survivors(canonical, {}, remote) == Survivors(canonical, {}, remote);
    ApplyAdds(Survivors(canonical, {}, remote), Values(Without(canonical, KeysOf(remote))));
  }

  /** Two quiet stretches of events make a quiet whole when the second is judged against the first's keys. */
  lemma QuietJoin(canonical: Dict<Key, Event>, seen: set<Key>, a: seq<Event>, b: seq<Event>)
    requires Quiet(canonical, seen, a) && Quiet(canonical, seen + KeysOf(a), b)
    ensures Quiet(canonical, seen, a + b)
  {
    var ab := a + b;
    forall i | 0 <= i < |ab|
      ensures && KeyOf(ab[i]) in canonical.entries
              && KeyOf(ab[i]) !in seen
              && ab[i].reminders == canonical.entries[KeyOf(ab[i])].reminders
    {
      if i >= |a| {
        assert ab[i] == b[i - |a|];
      }
    }
    forall i, j | 0 <= i < j < |ab| ensures KeyOf(ab[i]) != KeyOf(ab[j]) {
      if j < |a| {
        assert ab[i] == a[i] && ab[j] == a[j];
      } else if i < |a| {
        assert ab[i] == a[i] && ab[j] == b[j - |a|];
        assert KeyOf(b[j - |a|]) !in KeysOf(a);
      } else {
        assert ab[i] == b[i - |a|] && ab[j] == b[j - |a|];
      }
    }
  }

  /** What survives of one remote event: nothing, or one event under its key with the scheduled reminders. */
  lemma KeptShape(canonical: Dict<Key, Event>, seen: set<Key>, x: Event)
    requires canonical.Valid() && KeyedByIdentity(canonical)
    ensures var k := KeyOf(x);
      if k in canonical.entries && k !in seen
      then |Kept(canonical, seen, x)| == 1 && KeyOf(Kept(canonical, seen, x)[0]) == k
        && Kept(canonical, seen, x)[0].reminders == canonical.entries[k].reminders
      else Kept(canonical, seen, x) == []
  {
  }

  /**
   * The survivors of the remote events need nothing more: each is the first
   * remote event under a scheduled key and carries the scheduled reminders.
   */
  lemma {:induction false} SurvivorsQuiet(canonical: Dict<Key, Event>, seen: set<Key>, remote: seq<Event>)
    requires canonical.Valid() && KeyedByIdentity(canonical)
    ensures Quiet(canonical, seen, Survivors(canonical, seen, remote))
    decreases |remote|
  {
    if remote != [] {
      var x, t := remote[0], remote[1..];
      var k := KeyOf(x);
      var kept := Kept(canonical, seen, x);
      var rest := Survivors(canonical, seen + {k}, t);
      SurvivorsQuiet(canonical, seen + {k}, t);
      KeptShape(canonical, seen, x);
      if kept == [] {
        assert kept + rest == rest;
      } else {
        assert kept[1..] == [];
        assert KeysOf(kept) == {k};
        QuietJoin(canonical, seen, kept, rest);
      }
    }
  }

  /** Together the survivors cover every scheduled key, not seen before, that some remote event has. */
  lemma {:induction false} SurvivorsKeys(canonical: Dict<Key, Event>, seen: set<Key>, remote: seq<Event>)
    requires canonical.Valid() && KeyedByIdentity(canonical)
    ensures KeysOf(Survivors(canonical, seen, remote)) == KeysOf(remote) * canonical.entries.Keys - seen
    decreases |remote|
  {
    if remote != [] {
      var x, t := remote[0], remote[1..];
      var k := KeyOf(x);
      var kept := Kept(canonical, seen, x);
      var rest := Survivors(canonical, seen + {k}, t);
      SurvivorsKeys(canonical, seen + {k}, t);
      KeysOfAppend(kept, rest);
      KeptShape(canonical, seen, x);
      if kept != [] {
        assert kept[1..] == [];
      }
    }
  }

  /**
   * A second cycle does nothing: once the calendar has carried out the plan,
   * planning again against the same schedule yields no operation. The remote
   * events must have distinct ids, as calendar events do.
   */
  lemma ReconcileConverges(canonical: Dict<Key, Event>, remote: seq<Event>)
    requires canonical.Valid() && KeyedByIdentity(canonical) && DistinctIds(remote)
    ensures Plan(canonical, ApplyAll(remote, Plan(canonical, remote))) == []
  {
    Outcome(canonical, remote);
    var survivors := Survivors(canonical, {}, remote);
    var left := Without(canonical, KeysOf(remote));
    var added := Values(left);
    SurvivorsQuiet(canonical, {}, remote);
    SurvivorsKeys(canonical, {}, remote);
    assert {} + KeysOf(survivors) == KeysOf(survivors);
    assert Quiet(canonical, KeysOf(survivors), added) by {
      forall i | 0 <= i < |added|
        ensures && KeyOf(added[i]) in canonical.entries
                && KeyOf(added[i]) !in KeysOf(survivors)
                && added[i].reminders == canonical.entries[KeyOf(added[i])].reminders
      {
        assert left.order[i] in left.entries;
      }
      forall i, j | 0 <= i < j < |added| ensures KeyOf(added[i]) != KeyOf(added[j]) {
        assert left.order[i] in left.entries && left.order[j] in left.entries;
      }
    }
    QuietJoin(canonical, {}, survivors, added);
    KeysOfAppend(survivors, added);
    forall k | k in canonical.entries ensures k in KeysOf(survivors + added) {
      if k !in KeysOf(remote) {
        assert k in left.entries;
        var i :| 0 <= i < |left.order| && left.order[i] == k;
        assert KeyOf(added[i]) == k;
      }
    }
    EmptyPlanIffInSync(canonical, survivors + added);
  }
}

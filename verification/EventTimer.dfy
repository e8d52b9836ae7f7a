/**
 * The event timers: deadlines on a wrapping millisecond clock, kept in a
 * red-black tree keyed by deadline, with lazy re-arming and expiry.
 */
module EventTimer {
  import opened Words
  import opened Msec
  import opened RbTree

  const TIMER_INFINITE: Msec := TWO64 - 1
  const TIMER_LAZY_DELAY := 300

  /** The macro ngx_abs on a machine word: the most negative value has no negation. */
  function Abs(d: int): int {
    if 0 <= d then d else if d == -TWO63 then d else -d
  }

  /** Less than 300 ms apart. */
  predicate Close(a: Msec, b: Msec) {
    -TIMER_LAZY_DELAY < Diff(a, b) < TIMER_LAZY_DELAY
  }

  /** The test of ngx_event_add_timer, which keeps the old deadline. */
  predicate Near(key: Msec, old_: Msec) {
    Abs(Diff(key, old_)) < TIMER_LAZY_DELAY
  }

  /** The test accepts close deadlines, and those exactly half a turn apart. */
  lemma NearMeans(a: Msec, b: Msec)
    ensures Near(a, b) <==> Close(a, b) || Diff(a, b) == -TWO63
  {
  }

  /** Half a turn apart is as far as it gets: the armed key is kept although it is not close. */
  lemma HalfTurnIsKept(key: Msec)
    ensures Diff(Plus(key, TWO63), key) == -TWO63
    ensures Near(Plus(key, TWO63), key) && !Close(Plus(key, TWO63), key)
  {
  }

  /** A delay below half a turn lies ahead. */
  lemma DelayIsAhead(now: Msec, d: Msec)
    requires 0 < d < TWO63
    ensures Diff(Plus(now, d), now) == d
  {
  }

  /** Time left until a deadline, none once it has passed. */
  function Wait(key: Msec, now: Msec): Msec {
    if 0 < Diff(key, now) then Diff(key, now) else 0
  }

  class NgxEvent {
    const timer: RbNode
    var timerSet: bool
    var timedout: nat
    var timeoutFlag: bool
    // The deadline asked for last, whether or not the tree holds it.
    ghost var requested: Msec

    constructor (timer: RbNode)
      ensures this.timer == timer && !timerSet && timedout == 0 && !timeoutFlag
    {
      this.timer := timer;
      timerSet, timedout, timeoutFlag := false, 0, false;
    }

    method MarkTimedOut()
      modifies this`timedout, this`timeoutFlag
      ensures timedout == old(timedout) + 1 && timeoutFlag
    {
      timedout := timedout + 1;
      timeoutFlag := true;
    }

    method Disarm()
      modifies this`timerSet, timer`left, timer`right, timer`parent
      ensures !timerSet
    {
      timer.left := null;
      timer.right := null;
      timer.parent := null;
      timerSet := false;
    }
  }

  /** Handlers at most re-arm their own event, with a positive delay below half a turn. */
  ghost predicate Rearmable(events: map<RbNode, NgxEvent>, rearm: map<NgxEvent, Msec>) {
    forall e :: e in rearm ==> e.timer in events && events[e.timer] == e && 0 < rearm[e] < TWO63
  }

  lemma UpdateAfterRemoval(m: map<RbNode, Msec>, n: RbNode, key: Msec)
    ensures (m - {n})[n := key] == m[n := key]
  {
  }

  /** The armed timers after ev was taken and its handler ran. */
  ghost function Refired(armed: map<RbNode, Msec>, ev: NgxEvent, rearm: map<NgxEvent, Msec>, now: Msec): map<RbNode, Msec> {
    if ev in rearm then armed[ev.timer := Plus(now, rearm[ev])] else armed - {ev.timer}
  }

  /** Whether the half-circle from base on contains all deadlines in play. */
  datatype Window = Window(base: Msec, holds: bool)

  /** One call of the expiry loop: its clock, its handlers and the timers armed at its start. */
  datatype Expiry = Expiry(
    events: map<RbNode, NgxEvent>, rearm: map<NgxEvent, Msec>, now: Msec, start: map<RbNode, Msec>)
  {
    ghost predicate Wf() {
      && start.Keys <= events.Keys
      && (forall n :: n in events ==> events[n].timer == n)
      && Rearmable(events, rearm)
    }

    ghost predicate Due(key: Msec) {
      Diff(key, now) <= 0
    }

    /**
     * The fired events are distinct and were due; of the timers of the start those that
     * fired are armed anew or gone, as their handlers decide, and the others are untouched.
     */
    ghost predicate Reached(armed: map<RbNode, Msec>, fired: seq<NgxEvent>) {
      && Wf() && armed.Keys <= start.Keys
      && (forall i, j :: 0 <= i < j < |fired| ==> fired[i] != fired[j])
      && (forall e :: e in fired ==> e.timer in start && events[e.timer] == e && Due(start[e.timer]))
      && (forall n :: n in start ==>
            if events[n] !in fired then n in armed && armed[n] == start[n]
            else if events[n] in rearm then n in armed && armed[n] == Plus(now, rearm[events[n]])
            else n !in armed)
    }

    /** All deadlines of the start, the clock and all re-armed deadlines lie in one half-circle. */
    ghost predicate InWindowFrom(base: Msec) {
      && InWindow(base, now)
      && (forall n :: n in start ==> InWindow(base, start[n]))
      && (forall e :: e in rearm ==> InWindow(base, Plus(now, rearm[e])))
    }

    /** Fired in ascending order, and nothing armed is earlier than what has fired. */
    ghost predicate InOrder(base: Msec, armed: map<RbNode, Msec>, fired: seq<NgxEvent>) {
      && (forall e :: e in fired ==> e.timer in start)
      && (forall i, j :: 0 <= i < j < |fired| ==>
            Offset(base, start[fired[i].timer]) <= Offset(base, start[fired[j].timer]))
      && (forall e, n :: e in fired && n in armed ==> Offset(base, start[e.timer]) <= Offset(base, armed[n]))
    }

    /** Exactly the due events fired, earliest deadline first, and nothing due is left. */
    ghost predicate Finished(base: Msec, armed: map<RbNode, Msec>, fired: seq<NgxEvent>) {
      && InOrder(base, armed, fired)
      && (forall n :: n in start && n in events ==> (events[n] in fired <==> Due(start[n])))
      && (forall n :: n in armed ==> !Due(armed[n]))
    }

    ghost function Taken(fired: seq<NgxEvent>): set<RbNode> {
      set e | e in fired :: e.timer
    }

    lemma Step(armed: map<RbNode, Msec>, fired: seq<NgxEvent>, ev: NgxEvent)
      requires Reached(armed, fired) && ev.timer in armed && events[ev.timer] == ev && Due(armed[ev.timer])
      ensures Reached(Refired(armed, ev, rearm, now), fired + [ev])
      ensures ev.timer in start && armed[ev.timer] == start[ev.timer]
      ensures ev.timer !in Taken(fired) && Taken(fired + [ev]) == Taken(fired) + {ev.timer}
    {
      if ev in rearm {
        DelayIsAhead(now, rearm[ev]);
      }
      assert ev !in fired;
    }

    /** A deadline that was due is no later than the one that its handler asks for. */
    lemma RearmedIsLater(base: Msec, key: Msec, d: Msec)
      requires InWindow(base, now) && InWindow(base, key) && InWindow(base, Plus(now, d)) && Due(key) && 0 < d < TWO63
      ensures Offset(base, key) <= Offset(base, Plus(now, d))
    {
      DelayIsAhead(now, d);
      DiffIsOffsetDifference(base, Plus(now, d), now);
      DiffIsOffsetDifference(base, key, now);
    }

    /** Order is kept when the earliest armed event fires and nothing earlier is armed for it. */
    lemma OrderKept(base: Msec, armed: map<RbNode, Msec>, armed': map<RbNode, Msec>, fired: seq<NgxEvent>, ev: NgxEvent)
      requires InOrder(base, armed, fired)
      requires ev.timer in start && ev.timer in armed && armed[ev.timer] == start[ev.timer]
      requires forall n :: n in armed ==> Offset(base, armed[ev.timer]) <= Offset(base, armed[n])
      requires forall n :: n in armed' ==>
          (n in armed && armed'[n] == armed[n]) || Offset(base, armed[ev.timer]) <= Offset(base, armed'[n])
      ensures InOrder(base, armed', fired + [ev])
    {
      forall e, n | e in fired + [ev] && n in armed' ensures Offset(base, start[e.timer]) <= Offset(base, armed'[n]) {
        assert e == ev || Offset(base, start[e.timer]) <= Offset(base, armed[ev.timer]);
      }
    }

    lemma StepInOrder(base: Msec, armed: map<RbNode, Msec>, fired: seq<NgxEvent>, ev: NgxEvent)
      requires Reached(armed, fired) && ev.timer in armed && events[ev.timer] == ev && Due(armed[ev.timer])
      requires InWindowFrom(base) && InOrder(base, armed, fired)
      requires forall n :: n in armed ==> Offset(base, armed[ev.timer]) <= Offset(base, armed[n])
      ensures InOrder(base, Refired(armed, ev, rearm, now), fired + [ev])
    {
      Step(armed, fired, ev);
      if ev in rearm {
        RearmedIsLater(base, start[ev.timer], rearm[ev]);
      }
      OrderKept(base, armed, Refired(armed, ev, rearm, now), fired, ev);
    }

    ghost predicate Progress(w: Window, armed: map<RbNode, Msec>, fired: seq<NgxEvent>) {
      Reached(armed, fired) && (w.holds ==> InWindowFrom(w.base) && InOrder(w.base, armed, fired))
    }

    lemma Advance(w: Window, armed: map<RbNode, Msec>, armed': map<RbNode, Msec>,
                  fired: seq<NgxEvent>, fired': seq<NgxEvent>, ev: NgxEvent)
      requires Progress(w, armed, fired)
      requires armed' == Refired(armed, ev, rearm, now) && fired' == fired + [ev]
      requires ev.timer in armed && events[ev.timer] == ev && Due(armed[ev.timer])
      requires w.holds ==> forall n :: n in armed ==> Offset(w.base, armed[ev.timer]) <= Offset(w.base, armed[n])
      ensures Progress(w, armed', fired')
      ensures Taken(fired) < Taken(fired') <= start.Keys
      ensures ev in rearm && w.holds ==> InWindow(w.base, Plus(now, rearm[ev]))
    {
      Step(armed, fired, ev);
      if w.holds {
        StepInOrder(w.base, armed, fired, ev);
      }
    }

    lemma FinishedWhenNothingIsDue(base: Msec, armed: map<RbNode, Msec>, fired: seq<NgxEvent>)
      requires Reached(armed, fired) && InOrder(base, armed, fired)
      requires forall n :: n in armed ==> !Due(armed[n])
      ensures Finished(base, armed, fired)
    {
    }
  }

  class EventTimers {
    const tree: RbTree
    // Which event each timer node is embedded in.
    const events: map<RbNode, NgxEvent>
    var now: Msec

    constructor (sentinel: RbNode, events: map<RbNode, NgxEvent>, now: Msec)
      requires sentinel !in events
      requires forall n :: n in events ==> events[n].timer == n && !events[n].timerSet
      modifies sentinel
      ensures Valid() && AllClose() && tree.nodes == [] && this.events == events && this.now == now
      ensures fresh(tree) && tree.sentinel == sentinel
    {
      this.events, this.now := events, now;
      tree := new RbTree(sentinel, ByTimer);
      new;
      assert forall n :: n in tree.repr ==> tree.NodeOk(n, tree.sentinel);
    }

    /** timerSet is true exactly for the events in the tree, and their keys are near what was asked for. */
    ghost predicate Valid()
      reads this, tree, tree.repr, tree.sentinel, events.Values`timerSet, events.Values`requested
    {
      && tree.Valid() && tree.insert == ByTimer && tree.sentinel !in events
      && tree.repr <= events.Keys
      && (forall n :: n in events ==> events[n].timer == n)
      && (forall n :: n in events ==> (events[n].timerSet <==> n in tree.repr))
      && (forall n :: n in tree.repr ==> Near(events[n].requested, n.key))
    }

    /** Each armed timer with its deadline. */
    ghost function Armed(): map<RbNode, Msec>
      reads tree`repr, tree.repr`key
    {
      map n | n in tree.repr :: n.key
    }

    ghost predicate Owns(ev: NgxEvent)
      reads this
    {
      ev.timer in events && events[ev.timer] == ev
    }

    /** Every armed key is less than 300 ms from the latest deadline that was asked for. */
    ghost predicate AllClose()
      reads tree`repr, tree.repr`key, events.Values`requested
    {
      forall n :: n in tree.repr && n in events ==> Close(events[n].requested, n.key)
    }

    /** A call that asks for a deadline exactly half a turn from the armed one. */
    ghost predicate HalfTurn(ev: NgxEvent, timer: Msec)
      reads this, ev, ev.timer
    {
      ev.timerSet && Diff(Plus(now, timer), ev.timer.key) == -TWO63
    }

    /** ev's node was taken out of the tree, and ev marked as not armed. */
    twostate predicate Unlinked(ev: NgxEvent)
      reads this, tree, tree.repr, tree.sentinel, events.Values, ev
    {
      && old(Valid()) && Owns(ev)
      && tree.Valid() && tree.repr == old(tree.repr) - {ev.timer}
      && (forall n :: n in tree.repr ==> n.key == old(n.key))
      && (forall n :: n in events ==>
            && events[n].requested == old(events[n].requested)
            && events[n].timerSet == (old(events[n].timerSet) && n != ev.timer))
    }

    twostate lemma UnlinkedIsValid(ev: NgxEvent)
      requires Unlinked(ev)
      ensures Valid() && Armed() == old(Armed()) - {ev.timer} && (old(AllClose()) ==> AllClose())
    {
    }

    method DelTimer(ev: NgxEvent)
      requires Valid() && Owns(ev) && ev.timerSet
      modifies tree, tree.repr, tree.sentinel, ev`timerSet
      ensures Valid() && !ev.timerSet && Armed() == old(Armed()) - {ev.timer}
      ensures tree.repr == old(tree.repr) - {ev.timer}
      ensures forall base :: old(Ascending(ByTimer, base, tree.Keys())) ==> Ascending(ByTimer, base, tree.Keys())
      ensures old(AllClose()) ==> AllClose()
    {
      tree.Delete(ev.timer);
      ev.Disarm();
      UnlinkedIsValid(ev);
    }

    /** The new deadline is close to the armed one, which therefore stays. */
    ghost predicate KeepsOld(ev: NgxEvent, timer: Msec)
      reads this, ev, ev.timer
    {
      ev.timerSet && Near(Plus(now, timer), ev.timer.key)
    }

    method SetDeadline(ev: NgxEvent, key: Msec)
      requires Valid() && Owns(ev) && !ev.timerSet
      modifies ev`requested, ev.timer`key
      ensures Valid() && ev.requested == ev.timer.key == key
      ensures tree.Keys() == old(tree.Keys()) && Armed() == old(Armed()) && (old(AllClose()) ==> AllClose())
    {
      ev.timer.key := key;
      ev.requested := key;
      assert forall i :: 0 <= i < |tree.nodes| ==> tree.nodes[i] in tree.repr;
    }

    /** ev's node was added to the tree, and ev marked as armed. */
    twostate predicate Linked(ev: NgxEvent)
      reads this, tree, tree.repr, tree.sentinel, events.Values, ev
    {
      && old(Valid() && ev.timer !in tree.repr && ev.requested == ev.timer.key) && Owns(ev)
      && tree.Valid() && tree.repr == old(tree.repr) + {ev.timer}
      && (forall n :: n in tree.repr ==> n.key == old(n.key))
      && (forall n :: n in events ==>
            && events[n].requested == old(events[n].requested)
            && events[n].timerSet == (old(events[n].timerSet) || n == ev.timer))
    }

    twostate lemma LinkedIsValid(ev: NgxEvent)
      requires Linked(ev)
      ensures Valid() && Armed() == old(Armed())[ev.timer := old(ev.timer.key)]
      ensures old(AllClose()) ==> AllClose()
    {
      NearMeans(ev.timer.key, ev.timer.key);
    }

    method LinkTimer(ev: NgxEvent)
      requires Valid() && Owns(ev) && !ev.timerSet && ev.requested == ev.timer.key
      modifies tree, tree.repr, ev`timerSet, ev.timer
      ensures Valid() && ev.timerSet && Armed() == old(Armed())[ev.timer := old(ev.timer.key)]
      ensures tree.repr == old(tree.repr) + {ev.timer}
      ensures ev.timer.key == old(ev.timer.key)
      ensures forall base :: old(Ascending(ByTimer, base, tree.Keys())) && InWindow(base, ev.timer.key) ==>
          Ascending(ByTimer, base, tree.Keys())
      ensures old(AllClose()) ==> AllClose()
    {
      ghost var k := tree.Insert(ev.timer);
      ev.timerSet := true;
      LinkedIsValid(ev);
    }

    /** ev is armed for key, and nothing else changed. */
    twostate predicate Rearmed(ev: NgxEvent, key: Msec)
      reads this, tree, tree.repr, tree.sentinel, events.Values, ev, ev.timer
    {
      && Valid() && ev.timerSet && ev.requested == key && ev.timer.key == key
      && Armed() == old(Armed())[ev.timer := key]
      && tree.repr == old(tree.repr) + {ev.timer}
      && (old(AllClose()) ==> AllClose())
      && forall base :: old(Ascending(ByTimer, base, tree.Keys())) && InWindow(base, key) ==>
          Ascending(ByTimer, base, tree.Keys())
    }

    method ArmTimer(ev: NgxEvent, key: Msec)
      requires Valid() && Owns(ev) && !ev.timerSet
      modifies tree, tree.repr, ev`requested, ev`timerSet, ev.timer
      ensures Rearmed(ev, key)
    {
      SetDeadline(ev, key);
      LinkTimer(ev);
    }

    /** The old timer is deleted and a new one added. */
    method ReplaceTimer(ev: NgxEvent, key: Msec)
      requires Valid() && Owns(ev) && ev.timerSet
      modifies tree, tree.repr, tree.sentinel, ev`requested, ev`timerSet, ev.timer
      ensures Rearmed(ev, key)
    {
      UpdateAfterRemoval(Armed(), ev.timer, key);
      DelTimer(ev);
      ArmTimer(ev, key);
    }

    /** The old deadline stays, whatever was asked for. */
    method KeepTimer(ev: NgxEvent, key: Msec)
      requires Valid() && Owns(ev) && ev.timerSet && Near(key, ev.timer.key)
      modifies ev`requested
      ensures Valid() && ev.requested == key && Armed() == old(Armed()) && tree.Keys() == old(tree.Keys())
      ensures Close(key, ev.timer.key) && old(AllClose()) ==> AllClose()
    {
      ev.requested := key;
    }

    /** ngx_event_add_timer. */
    method AddTimer(ev: NgxEvent, timer: Msec)
      requires Valid() && Owns(ev)
      modifies tree, tree.repr, tree.sentinel, ev`requested, ev`timerSet, ev.timer
      ensures Valid() && ev.timerSet && ev.requested == Plus(now, timer)
      ensures Armed() == if old(KeepsOld(ev, timer)) then old(Armed()) else old(Armed())[ev.timer := Plus(now, timer)]
      ensures tree.repr == old(tree.repr) + {ev.timer}
      ensures forall base :: old(Ascending(ByTimer, base, tree.Keys())) && InWindow(base, Plus(now, timer)) ==>
          Ascending(ByTimer, base, tree.Keys())
      ensures Close(ev.requested, ev.timer.key) <==> !old(HalfTurn(ev, timer))
      ensures old(AllClose()) ==> (AllClose() <==> !old(HalfTurn(ev, timer)))
    {
      var key := Plus(now, timer);
      if !ev.timerSet {
        ArmTimer(ev, key);
      } else if Abs(Diff(key, ev.timer.key)) < TIMER_LAZY_DELAY {
        NearMeans(key, ev.timer.key);
        KeepTimer(ev, key);
      } else {
        ReplaceTimer(ev, key);
      }
    }

    /** ngx_event_find_timer: the time to wait for the first deadline. */
    method FindTimer() returns (wait: Msec)
      requires Valid()
      ensures tree.nodes == [] ==> wait == TIMER_INFINITE
      ensures tree.nodes != [] ==> exists n :: n in tree.repr && wait == Wait(n.key, now)
      ensures forall base :: Ascending(ByTimer, base, tree.Keys()) && InWindow(base, now) ==>
          forall n :: n in tree.repr ==> wait <= Wait(n.key, now)
    {
      if tree.root == tree.sentinel {
        assert forall n :: n in tree.repr ==> tree.NodeOk(n, tree.sentinel);
        return TIMER_INFINITE;
      }
      var node := tree.Min(tree.root);
      wait := Wait(node.key, now);
      forall base, n | Ascending(ByTimer, base, tree.Keys()) && InWindow(base, now) && n in tree.repr
        ensures wait <= Wait(n.key, now)
      {
        FirstIsEarliest(base, node, n);
        DiffIsOffsetDifference(base, n.key, now);
        DiffIsOffsetDifference(base, node.key, now);
      }
    }

    lemma FirstIsEarliest(base: Msec, first: RbNode, n: RbNode)
      requires Valid() && Ascending(ByTimer, base, tree.Keys()) && {first, n} <= tree.repr && first.pos == 0
      ensures InWindow(base, first.key) && InWindow(base, n.key)
      ensures Offset(base, first.key) <= Offset(base, n.key)
    {
      assert tree.NodeOk(first, tree.sentinel) && tree.NodeOk(n, tree.sentinel);
      assert tree.Keys()[0] == first.key && tree.Keys()[n.pos] == n.key;
    }

    /** The earliest timer if it is due. */
    method FirstDue() returns (node: RbNode?)
      requires Valid()
      ensures node == null ==> forall base :: Ascending(ByTimer, base, tree.Keys()) && InWindow(base, now) ==>
          forall n :: n in Armed() ==> Diff(Armed()[n], now) > 0
      ensures node != null ==> node in Armed() && Diff(Armed()[node], now) <= 0
      ensures node != null ==> forall base :: Ascending(ByTimer, base, tree.Keys()) ==>
          forall n :: n in Armed() ==> Offset(base, Armed()[node]) <= Offset(base, Armed()[n])
    {
      if tree.root == tree.sentinel {
        assert forall n :: n in tree.repr ==> tree.NodeOk(n, tree.sentinel);
        return null;
      }
      node := tree.Min(tree.root);
      forall base, n | Ascending(ByTimer, base, tree.Keys()) && n in tree.repr
        ensures Offset(base, node.key) <= Offset(base, n.key)
        ensures Diff(node.key, now) > 0 && InWindow(base, now) ==> Diff(n.key, now) > 0
      {
        FirstIsEarliest(base, node, n);
        if InWindow(base, now) {
          DiffIsOffsetDifference(base, n.key, now);
          DiffIsOffsetDifference(base, node.key, now);
        }
      }
      if Diff(node.key, now) > 0 {
        return null;
      }
    }

    /** The deadline that ev's handler asks for, if any, lies in the half-circle from base on. */
    ghost predicate RearmsIn(ev: NgxEvent, rearm: map<NgxEvent, Msec>, base: Msec)
      reads this
    {
      ev in rearm ==> InWindow(base, Plus(now, rearm[ev]))
    }

    /** The keys ascend in the half-circle from w.base on, if w holds. */
    ghost predicate InOrderIn(w: Window)
      reads tree, tree.repr, tree.nodes
    {
      w.holds ==> Ascending(ByTimer, w.base, tree.Keys())
    }

    /** The handler of an event whose timer was just taken out, which may arm it anew. */
    method RunHandler(ev: NgxEvent, rearm: map<NgxEvent, Msec>, ghost before: map<RbNode, Msec>, ghost w: Window)
      requires Valid() && Owns(ev) && !ev.timerSet && ev.timer in before && Armed() == before - {ev.timer}
      requires InOrderIn(w) && (w.holds ==> RearmsIn(ev, rearm, w.base))
      modifies tree, tree.repr, tree.sentinel, ev.timer, ev`timerSet, ev`requested
      ensures Valid() && tree.repr <= old(tree.repr) + {ev.timer}
      ensures Armed() == Refired(before, ev, rearm, now)
      ensures old(AllClose()) ==> AllClose()
      ensures InOrderIn(w)
    {
      if ev in rearm {
        UpdateAfterRemoval(before, ev.timer, Plus(now, rearm[ev]));
        AddTimer(ev, rearm[ev]);
      }
    }

    /** Takes a timer out of the tree and marks its event. */
    method TakeTimer(ev: NgxEvent, ghost w: Window)
      requires Valid() && Owns(ev) && ev.timerSet && InOrderIn(w)
      modifies tree, tree.repr, tree.sentinel, ev`timerSet, ev`timedout, ev`timeoutFlag
      ensures Valid() && !ev.timerSet && ev.timedout == old(ev.timedout) + 1 && ev.timeoutFlag
      ensures tree.repr == old(tree.repr) - {ev.timer} && Armed() == old(Armed()) - {ev.timer}
      ensures old(AllClose()) ==> AllClose()
      ensures InOrderIn(w)
    {
      DelTimer(ev);
      ev.MarkTimedOut();
    }

    /** Takes a timer out, marks its event and runs its handler. */
    method FireTimer(ev: NgxEvent, rearm: map<NgxEvent, Msec>, ghost w: Window)
      requires Valid() && Owns(ev) && ev.timerSet && InOrderIn(w) && (w.holds ==> RearmsIn(ev, rearm, w.base))
      modifies tree, tree.repr, tree.sentinel
      modifies ev`timerSet, ev`timedout, ev`timeoutFlag, ev`requested
      ensures Valid() && ev.timedout == old(ev.timedout) + 1 && ev.timeoutFlag
      ensures tree.repr <= old(tree.repr)
      ensures Armed() == Refired(old(Armed()), ev, rearm, now)
      ensures old(AllClose()) ==> AllClose()
      ensures InOrderIn(w)
    {
      ghost var before := Armed();
      TakeTimer(ev, w);
      RunHandler(ev, rearm, before, w);
    }

    lemma NowExpiry(rearm: map<NgxEvent, Msec>)
      requires Valid() && Rearmable(events, rearm)
      ensures Expiry(events, rearm, now, Armed()).Reached(Armed(), [])
    {
    }

    /** One round of the expiry loop; there are no more rounds when the earliest timer is not due. */
    method ExpireNext(rearm: map<NgxEvent, Msec>, before: seq<NgxEvent>, ghost x: Expiry, ghost w: Window)
      returns (more: bool, fired: seq<NgxEvent>, ghost armed: map<RbNode, Msec>)
      requires Valid() && x.events == events && x.rearm == rearm && x.now == now
      requires x.Progress(w, Armed(), before) && InOrderIn(w)
      modifies tree, tree.repr, tree.sentinel
      modifies events.Values`timerSet, events.Values`timedout, events.Values`timeoutFlag, events.Values`requested
      ensures Valid() && tree.repr <= old(tree.repr) && armed == Armed()
      ensures (old(AllClose()) ==> AllClose()) && InOrderIn(w)
      ensures x.Progress(w, armed, fired)
      ensures !more && w.holds ==> x.Finished(w.base, armed, fired)
      ensures more ==> x.Taken(before) < x.Taken(fired) <= x.start.Keys
    {
      var node := FirstDue();
      armed, fired := Armed(), before;
      assert armed == old(Armed());
      if node == null {
        if w.holds {
          x.FinishedWhenNothingIsDue(w.base, armed, fired);
        }
        more := false;
      } else {
        var ev: NgxEvent := events[node];
        fired, more := before + [ev], true;
        ghost var armed' := Refired(armed, ev, rearm, now);
        x.Advance(w, armed, armed', before, fired, ev);
        FireTimer(ev, rearm, w);
        armed := armed';
      }
    }

    /** ngx_event_expire_timers, for handlers that at most re-arm their own event. */
    method ExpireTimers(rearm: map<NgxEvent, Msec>, ghost base: Msec) returns (fired: seq<NgxEvent>)
      requires Valid() && Rearmable(events, rearm)
      modifies tree, tree.repr, tree.sentinel
      modifies events.Values`timerSet, events.Values`timedout, events.Values`timeoutFlag, events.Values`requested
      ensures Valid() && Expiry(events, rearm, now, old(Armed())).Reached(Armed(), fired)
      ensures old(Ascending(ByTimer, base, tree.Keys())) && Expiry(events, rearm, now, old(Armed())).InWindowFrom(base) ==>
          Expiry(events, rearm, now, old(Armed())).Finished(base, Armed(), fired)
      ensures old(AllClose()) ==> AllClose()
    {
      fired := [];
      ghost var armed := Armed();
      ghost var x := Expiry(events, rearm, now, armed);
      ghost var w := Window(base, Ascending(ByTimer, base, tree.Keys()) && x.InWindowFrom(base));
      NowExpiry(rearm);
      var more := true;
      while more
        invariant Valid() && tree.repr <= old(tree.repr)
        invariant armed == Armed() && x.Progress(w, armed, fired) && (old(AllClose()) ==> AllClose())
        invariant InOrderIn(w)
        invariant !more && w.holds ==> x.Finished(w.base, armed, fired)
        decreases more, x.start.Keys - x.Taken(fired)
      {
        more, fired, armed := ExpireNext(rearm, fired, x, w);
      }
    }
  }
}

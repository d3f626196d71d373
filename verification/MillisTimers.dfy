/** The linked form of the timer service, as the tick interrupt runs it.

  Running timers form a doubly linked list in which each `ms` counts from the
  timer before it; waiting timers form a singly linked list. Every method is
  proved to do to the lists what the same operation of TimerSchedule does to
  the absolute deadlines. */
module MillisTimers {
  import opened TimerSchedule
  import TimerRuns
  import EventQueues
  import EventResponders

  /** unsigned long on this processor: storing a value outside the range is an error. */
  type uint32 = n: int | 0 <= n < 0x1_0000_0000

  datatype TimerState = TimerOff | TimerWaiting | TimerActive

  class MillisTimer {
    var ms: uint32
    var reload: uint32
    var next: MillisTimer?
    var prev: MillisTimer?
    var state: TimerState
    var event: EventResponders.EventResponder

    constructor (event: EventResponders.EventResponder)
      ensures state == TimerOff && this.event == event
    {
      ms, reload, next, prev, state := 0, 0, null, null, TimerOff;
      this.event := event;
    }
  }

  type Entries = seq<Entry<MillisTimer>>

  /** The timer at position i, or null past either end. */
  ghost function Ref(a: Entries, i: int): MillisTimer? {
    if 0 <= i < |a| then a[i].id else null
  }

  /** The deadline of the entry before position i, from which its `ms` is counted. */
  ghost function Base(a: Entries, i: int): int {
    if 0 < i <= |a| then a[i - 1].due else 0
  }

  /** The node of entry i carries its entry: state, period, wait counted from the entry before, and links. */
  ghost predicate ActiveNode(a: Entries, i: nat)
    requires i < |a|
    reads a[i].id
  {
    var t := a[i].id;
    && a[i].due < 0x1_0000_0000
    && t.state == TimerActive
    && t.reload == a[i].reload
    && t.ms == a[i].due - Base(a, i)
    && t.next == Ref(a, i + 1)
    && t.prev == Ref(a, i - 1)
  }

  ghost predicate WaitingNode(w: Entries, i: nat)
    requires i < |w|
    reads w[i].id
  {
    var t := w[i].id;
    && t.state == TimerWaiting
    && t.reload == w[i].reload
    && t.ms == w[i].due
    && t.next == Ref(w, i + 1)
  }

  lemma InsertAt(a: Entries, e: Entry<MillisTimer>, i: nat)
    requires i <= |a|
    ensures var p := InsertPos(a, e.due);
            Insert(a, e)[i] == if i < p then a[i] else if i == p then e else a[i - 1]
  {
    hide InsertPos;
  }

  /** What insertion does to the neighbours of each position. */
  lemma InsertNeighbours(a: Entries, e: Entry<MillisTimer>, i: nat)
    requires i <= |a|
    ensures var p, r := InsertPos(a, e.due), Insert(a, e);
            && r[i] == (if i < p then a[i] else if i == p then e else a[i - 1])
            && Base(r, i) == (if i <= p then Base(a, i) else if i == p + 1 then e.due else Base(a, i - 1))
            && Ref(r, i + 1) == (if i + 1 < p then Ref(a, i + 1) else if i + 1 == p then e.id else Ref(a, i))
            && Ref(r, i - 1) == (if i <= p then Ref(a, i - 1) else if i == p + 1 then e.id else Ref(a, i - 2))
  {
    hide Insert, InsertPos;
    InsertAt(a, e, i);
    if i > 0 { InsertAt(a, e, i - 1); }
    if i < |a| { InsertAt(a, e, i + 1); }
  }

  /** What happens to the timers from outside. */
  datatype Call =
    | BeginTimer(id: MillisTimer, ms: uint32, repeating: bool, event: EventResponders.EventResponder)
    | EndTimer(id: MillisTimer)
    | TickInterrupt

  function OpOf(c: Call): TimerRuns.Op<MillisTimer> {
    match c
    case BeginTimer(t, ms, repeating, _) => TimerRuns.Begin(t, ms, repeating)
    case EndTimer(t) => TimerRuns.End(t)
    case TickInterrupt => TimerRuns.Tick
  }

  function OpsOf(calls: seq<Call>): (ops: seq<TimerRuns.Op<MillisTimer>>)
    ensures |ops| == |calls| && forall i :: 0 <= i < |ops| ==> ops[i] == OpOf(calls[i])
  {
    seq(|calls|, i requires 0 <= i < |calls| => OpOf(calls[i]))
  }

  /** The events of some timers, in order. */
  ghost function EventsIn(m: map<MillisTimer, EventResponders.EventResponder>, ts: seq<MillisTimer>)
    : seq<EventResponders.EventResponder>
  {
    if ts == [] then []
    else
      var t := ts[|ts| - 1];
      EventsIn(m, ts[..|ts| - 1]) + if t in m then [m[t]] else []
  }

  /** A begin with a time sets the timer's event. */
  ghost function EventsAfter(m: map<MillisTimer, EventResponders.EventResponder>, c: Call)
    : map<MillisTimer, EventResponders.EventResponder>
  {
    if c.BeginTimer? && c.ms != 0 then m[c.id := c.event] else m
  }

  ghost function EventsAfterAll(m: map<MillisTimer, EventResponders.EventResponder>, calls: seq<Call>)
    : map<MillisTimer, EventResponders.EventResponder>
  {
    if calls == [] then m else EventsAfter(EventsAfterAll(m, calls[..|calls| - 1]), calls[|calls| - 1])
  }

  /** What the ticks of a run trigger, in order, when they fire the timers of the log: the events that those were last
    begun with. */
  ghost function TriggeredBy(m: map<MillisTimer, EventResponders.EventResponder>, calls: seq<Call>,
                             log: seq<seq<MillisTimer>>): seq<EventResponders.EventResponder>
  {
    if calls == [] || log == [] then []
    else
      var n, k := |calls| - 1, |log| - 1;
      if calls[n].TickInterrupt? then
        TriggeredBy(m, calls[..n], log[..k]) + EventsIn(EventsAfterAll(m, calls[..n]), log[k])
      else TriggeredBy(m, calls[..n], log)
  }

  lemma TriggeredNext(m: map<MillisTimer, EventResponders.EventResponder>, calls: seq<Call>, i: nat,
                      log: seq<seq<MillisTimer>>, fired: seq<MillisTimer>)
    requires i < |calls| && (!calls[i].TickInterrupt? ==> fired == [])
    ensures EventsAfterAll(m, calls[..i + 1]) == EventsAfter(EventsAfterAll(m, calls[..i]), calls[i])
    ensures TriggeredBy(m, calls[..i + 1], log + if calls[i].TickInterrupt? then [fired] else []) ==
            TriggeredBy(m, calls[..i], log) + EventsIn(EventsAfterAll(m, calls[..i]), fired)
  {
    assert calls[..i + 1][..i] == calls[..i];
    if calls[i].TickInterrupt? {
      assert (log + [fired])[..|log|] == log;
    } else {
      assert log + [] == log;
    }
  }

  class TimerLists {
    var listWaiting: MillisTimer?
    var listActive: MillisTimer?
    ghost var sched: Schedule<MillisTimer>
    ghost const timers: set<MillisTimer>
    const events: EventResponders.EventSystem

    constructor (timers: set<MillisTimer>, events: EventResponders.EventSystem)
      requires forall t :: t in timers ==> t.state == TimerOff
      ensures Valid() && sched == Schedule([], []) && this.timers == timers && this.events == events
    {
      this.events := events;
      listWaiting, listActive := null, null;
      sched := Schedule([], []);
      this.timers := timers;
    }

    ghost predicate ActiveLinked(a: Entries)
      reads `listActive, timers
    {
      && Unique(a)
      && listActive == Ref(a, 0)
      && (forall i :: 0 <= i < |a| ==> a[i].id in timers)
      && (forall i :: 0 <= i < |a| ==> ActiveNode(a, i))
    }

    ghost predicate WaitingLinked(w: Entries, head: MillisTimer?)
      reads timers
    {
      && Unique(w)
      && head == Ref(w, 0)
      && (forall i :: 0 <= i < |w| ==> w[i].id in timers)
      && (forall i :: 0 <= i < |w| ==> WaitingNode(w, i))
    }

    /** A timer's state names the list it is on; the timers in `loose` are on none. */
    ghost predicate Agrees(w: Entries, loose: set<MillisTimer>)
      reads this, timers
    {
      && (forall t :: t in timers - loose ==> (t.state == TimerActive <==> HasId(sched.active, t)))
      && (forall t :: t in timers - loose ==> (t.state == TimerWaiting <==> HasId(w, t)))
      && (forall t :: t in loose ==> !HasId(sched.active, t) && !HasId(w, t))
    }

    ghost predicate Consistent(w: Entries, head: MillisTimer?, loose: set<MillisTimer>)
      reads this, timers
    {
      ActiveLinked(sched.active) && WaitingLinked(w, head) && Agrees(w, loose)
    }

    /** Both lists are well linked and a timer is on the list its state names, and on no other. */
    ghost predicate Valid()
      reads this, timers
    {
      Consistent(sched.waiting, listWaiting, {})
    }

    /** Every timer's event belongs to the event system. */
    ghost predicate EventsKnown()
      reads timers`event, events, events.onYield, events.onInterrupt, events.responders
    {
      events.Sound() && forall t :: t in timers ==> t.event in events.responders
    }

    /** The events of some timers, in order. */
    ghost function EventsOf(ts: seq<MillisTimer>): seq<EventResponders.EventResponder>
      reads (set t | t in ts)`event
    {
      if ts == [] then [] else EventsOf(ts[..|ts| - 1]) + [ts[|ts| - 1].event]
    }

    lemma TriggerNext(e: EventQueues.Events<EventResponders.EventResponder>, ts: seq<MillisTimer>, t: MillisTimer)
      requires forall r :: r in EventsOf(ts) ==> r in e.kind
      requires t.event in e.kind
      ensures EventsOf(ts + [t]) == EventsOf(ts) + [t.event]
      ensures EventQueues.TriggerAll(e, EventsOf(ts + [t])) ==
              EventQueues.Trigger(EventQueues.TriggerAll(e, EventsOf(ts)), t.event)
    {
      assert (ts + [t])[..|ts|] == ts;
      assert (EventsOf(ts) + [t.event])[..|EventsOf(ts)|] == EventsOf(ts);
    }

    lemma LinkedIsSorted(a: Entries)
      requires ActiveLinked(a)
      ensures Sorted(a)
    {
      forall i, j | 0 <= i < j < |a|
        ensures a[i].due <= a[j].due
      {
        SortedFrom(a, i, j);
      }
    }

    lemma SortedFrom(a: Entries, i: nat, j: nat)
      requires ActiveLinked(a) && i < j < |a|
      ensures a[i].due <= a[j].due
    {
      assert ActiveNode(a, j);
      if i < j - 1 { SortedFrom(a, i, j - 1); }
    }

    lemma ValidIsWellFormed()
      requires Valid()
      ensures WellFormed(sched)
    {
      LinkedIsSorted(sched.active);
      forall i, j | 0 <= i < |sched.active| && 0 <= j < |sched.waiting|
        ensures sched.active[i].id != sched.waiting[j].id
      {
        assert ActiveNode(sched.active, i);
      }
    }

    /** The node of entry i, when e has just been spliced in at position p. */
    ghost predicate SplicedNode(a: Entries, i: nat, e: Entry<MillisTimer>, p: nat)
      requires i < |a|
      reads a[i].id, e.id
    {
      var t := a[i].id;
      && a[i].due < 0x1_0000_0000
      && t.state == TimerActive
      && t.reload == a[i].reload
      && t.ms == a[i].due - Base(a, i) - (if i == p then e.id.ms else 0)
      && t.next == (if i == p - 1 then e.id else Ref(a, i + 1))
      && t.prev == (if i == p then e.id else Ref(a, i - 1))
    }

    /** Splicing a timer in at its place, and charging its wait to the timer behind it, keeps the delta list. */
    lemma Spliced(a: Entries, e: Entry<MillisTimer>, p: nat)
      requires Unique(a) && !HasId(a, e.id)
      requires forall i :: 0 <= i < |a| ==> a[i].id in timers
      requires forall i :: 0 <= i < |a| ==> SplicedNode(a, i, e, p)
      requires e.id in timers && e.due < 0x1_0000_0000
      requires p == InsertPos(a, e.due)
      requires e.id.ms == e.due - Base(a, p) && e.id.reload == e.reload && e.id.state == TimerActive
      requires e.id.next == Ref(a, p) && e.id.prev == Ref(a, p - 1)
      requires listActive == if p == 0 then e.id else Ref(a, 0)
      ensures ActiveLinked(Insert(a, e))
    {
      InsertUnique(a, e);
      forall i | 0 <= i < |Insert(a, e)|
        ensures Insert(a, e)[i].id in timers && ActiveNode(Insert(a, e), i)
      {
        SplicedAt(a, e, p, i);
      }
      InsertNeighbours(a, e, 0);
    }

    lemma SplicedAt(a: Entries, e: Entry<MillisTimer>, p: nat, i: nat)
      requires forall i :: 0 <= i < |a| ==> a[i].id in timers
      requires forall i :: 0 <= i < |a| ==> SplicedNode(a, i, e, p)
      requires e.id in timers && e.due < 0x1_0000_0000 && p == InsertPos(a, e.due) && i <= |a|
      requires e.id.ms == e.due - Base(a, p) && e.id.reload == e.reload && e.id.state == TimerActive
      requires e.id.next == Ref(a, p) && e.id.prev == Ref(a, p - 1)
      ensures Insert(a, e)[i].id in timers && ActiveNode(Insert(a, e), i)
    {
      hide Insert, InsertPos, Ref, Base;
      InsertNeighbours(a, e, i);
      if i < p {
        assert SplicedNode(a, i, e, p);
      } else if i > p {
        assert SplicedNode(a, i - 1, e, p);
      }
    }

    /** Puts t on the running list at its deadline, behind all that are due no later. */
    method AddToActiveList(t: MillisTimer, ghost w: Entries, ghost head: MillisTimer?)
      requires t in timers && Consistent(w, head, {t})
      modifies `listActive, `sched, timers`ms, timers`reload, timers`next, timers`prev, timers`state
      ensures sched == old(sched).(active := Insert(old(sched.active), Entry(t, old(t.ms), old(t.reload))))
      ensures Consistent(w, head, {})
    {
      ghost var a, e := sched.active, Entry(t, t.ms, t.reload);
      if listActive == null || t.ms < listActive.ms {
        AddInFront(t, e);
      } else {
        AddBehindFirst(t, e);
      }
      sched := sched.(active := Insert(a, e));
      InsertUnique(a, e);
      assert ActiveNode(sched.active, InsertPos(a, e.due));
      forall i | 0 <= i < |w|
        ensures WaitingNode(w, i)
      {
        assert old(WaitingNode(w, i));
        assert HasId(w, w[i].id);
        assert w[i].id.state == old(w[i].id.state);
      }
    }

    method AddInFront(t: MillisTimer, ghost e: Entry<MillisTimer>)
      requires ActiveLinked(sched.active)
      requires t in timers && !HasId(sched.active, t)
      requires e == Entry(t, t.ms, t.reload)
      requires listActive != null ==> t.ms < listActive.ms
      modifies `listActive, timers`ms, timers`reload, timers`next, timers`prev, timers`state
      ensures ActiveLinked(Insert(sched.active, e))
      ensures forall u :: u in timers && u != t ==> u.state == old(u.state)
      ensures forall u :: u in timers && u != t && !HasId(sched.active, u) ==> unchanged(u)
    {
      LinkedIsSorted(sched.active);
      if sched.active != [] { assert ActiveNode(sched.active, 0); }
      InsertPosIs(sched.active, e.due, 0);
      if listActive == null {
        t.next := null;
        t.prev := null;
        listActive := t;
      } else {
        t.next := listActive;
        t.prev := null;
        listActive.prev := t;
        listActive.ms := listActive.ms - t.ms;
        listActive := t;
      }
      t.state := TimerActive;
      forall k | 0 <= k < |sched.active|
        ensures SplicedNode(sched.active, k, e, 0)
      {
        assert old(ActiveNode(sched.active, k));
      }
      Spliced(sched.active, e, 0);
    }

    method AddBehindFirst(t: MillisTimer, ghost e: Entry<MillisTimer>)
      requires ActiveLinked(sched.active)
      requires t in timers && !HasId(sched.active, t)
      requires e == Entry(t, t.ms, t.reload)
      requires listActive != null && listActive.ms <= t.ms
      modifies timers`ms, timers`reload, timers`next, timers`prev, timers`state
      ensures ActiveLinked(Insert(sched.active, e))
      ensures forall u :: u in timers && u != t ==> u.state == old(u.state)
      ensures forall u :: u in timers && u != t && !HasId(sched.active, u) ==> unchanged(u)
    {
      var timer, inMiddle, i := FindPlace(t, e);
      forall k | 0 <= k < |sched.active|
        ensures ActiveNode(sched.active, k)
      {
        assert old(ActiveNode(sched.active, k));
      }
      if inMiddle {
        LinkBetween(t, timer, i, e);
      } else {
        LinkLast(t, timer, e);
      }
    }

    /** Walks the list, taking off each wait, to the first timer due later than t, or to the last timer. */
    method FindPlace(t: MillisTimer, ghost e: Entry<MillisTimer>)
      returns (timer: MillisTimer, inMiddle: bool, ghost i: nat)
      requires ActiveLinked(sched.active)
      requires t in timers && !HasId(sched.active, t)
      requires e == Entry(t, t.ms, t.reload)
      requires listActive != null && listActive.ms <= t.ms
      modifies t`ms
      ensures i == InsertPos(sched.active, e.due) > 0
      ensures t.ms == e.due - Base(sched.active, i)
      ensures if inMiddle then i < |sched.active| && timer == sched.active[i].id && t.ms < timer.ms
              else i == |sched.active| && timer == sched.active[i - 1].id
    {
      ghost var a := sched.active;
      LinkedIsSorted(a);
      timer := listActive;
      i := 0;
      assert ActiveNode(a, 0);
      while timer.next != null
        invariant 0 <= i < |a| && timer == a[i].id
        invariant a[i].due <= e.due
        invariant t.ms == e.due - Base(a, i)
        decreases |a| - i
      {
        assert old(ActiveNode(a, i)) && old(ActiveNode(a, i + 1));
        t.ms := t.ms - timer.ms;
        timer := timer.next;
        i := i + 1;
        if t.ms < timer.ms {
          InsertPosIs(a, e.due, i);
          inMiddle := true;
          return;
        }
      }
      assert old(ActiveNode(a, i));
      t.ms := t.ms - timer.ms;
      i := i + 1;
      InsertPosIs(a, e.due, |a|);
      inMiddle := false;
    }

    method LinkLast(t: MillisTimer, timer: MillisTimer, ghost e: Entry<MillisTimer>)
      requires var a := sched.active;
        && ActiveLinked(a)
        && 0 < |a| == InsertPos(a, e.due)
        && timer == a[|a| - 1].id
        && t in timers && !HasId(a, t)
        && e.id == t && e.due < 0x1_0000_0000
        && t.ms == e.due - Base(a, |a|) && t.reload == e.reload
      modifies timers`ms, timers`reload, timers`next, timers`prev, timers`state
      ensures ActiveLinked(Insert(sched.active, e))
      ensures forall u :: u in timers && u != t ==> u.state == old(u.state)
      ensures forall u :: u in timers && u != t && !HasId(sched.active, u) ==> unchanged(u)
    {
      ghost var a := sched.active;
      t.next := null;
      t.prev := timer;
      timer.next := t;
      t.state := TimerActive;
      forall k | 0 <= k < |a|
        ensures SplicedNode(a, k, e, |a|)
      {
        assert old(ActiveNode(a, k));
      }
      Spliced(a, e, |a|);
    }

    method LinkBetween(t: MillisTimer, timer: MillisTimer, ghost i: nat, ghost e: Entry<MillisTimer>)
      requires var a := sched.active;
        && 0 < i < |a|
        && ActiveLinked(a)
        && timer == a[i].id
        && i == InsertPos(a, e.due)
        && t in timers && !HasId(a, t)
        && e.id == t && e.due < 0x1_0000_0000
        && t.ms == e.due - Base(a, i) && t.reload == e.reload
        && t.ms < timer.ms
      modifies timers`ms, timers`reload, timers`next, timers`prev, timers`state
      ensures ActiveLinked(Insert(sched.active, e))
      ensures forall u :: u in timers && u != t ==> u.state == old(u.state)
      ensures forall u :: u in timers && u != t && !HasId(sched.active, u) ==> unchanged(u)
    {
      ghost var a := sched.active;
      assert ActiveNode(a, i) && ActiveNode(a, i - 1);
      t.next := timer;
      t.prev := timer.prev;
      timer.prev := t;
      t.prev.next := t;
      timer.ms := timer.ms - t.ms;
      t.state := TimerActive;
      forall k | 0 <= k < |a|
        ensures SplicedNode(a, k, e, i)
      {
        assert old(ActiveNode(a, k));
      }
      Spliced(a, e, i);
    }

    // ----- Leaving the running list

    /** The node of entry i, when entry k has just been cut out and its wait handed to the next. */
    ghost predicate CutNode(a: Entries, i: nat, k: nat)
      requires i < |a| && k < |a|
      reads a[i].id
    {
      var t := a[i].id;
      && a[i].due < 0x1_0000_0000
      && t.state == TimerActive
      && t.reload == a[i].reload
      && t.ms == a[i].due - (if i == k + 1 then Base(a, k) else Base(a, i))
      && t.next == (if i == k - 1 then Ref(a, k + 1) else Ref(a, i + 1))
      && t.prev == (if i == k + 1 then Ref(a, k - 1) else Ref(a, i - 1))
    }

    lemma CutOut(a: Entries, k: nat)
      requires Unique(a) && k < |a|
      requires forall i :: 0 <= i < |a| ==> a[i].id in timers
      requires forall i :: 0 <= i < |a| && i != k ==> CutNode(a, i, k)
      requires listActive == if k == 0 then Ref(a, 1) else Ref(a, 0)
      ensures ActiveLinked(a[..k] + a[k + 1..])
    {
      var r := a[..k] + a[k + 1..];
      forall i | 0 <= i < |r|
        ensures r[i].id in timers && ActiveNode(r, i)
      {
        var j := if i < k then i else i + 1;
        assert r[i] == a[j];
        assert CutNode(a, j, k);
        assert Base(r, i) == if i == k then Base(a, k) else Base(a, j);
        assert Ref(r, i + 1) == if i + 1 < k then Ref(a, i + 1) else Ref(a, i + 2);
        assert Ref(r, i - 1) == if i <= k then Ref(a, i - 1) else Ref(a, i);
      }
    }

    lemma CutHasId(a: Entries, k: nat, id: MillisTimer)
      requires Unique(a) && k < |a|
      ensures HasId(a[..k] + a[k + 1..], id) <==> HasId(a, id) && id != a[k].id
    {
      var r := a[..k] + a[k + 1..];
      if i :| 0 <= i < |a| && a[i].id == id && i != k {
        assert r[if i < k then i else i - 1].id == id;
      }
      if i :| 0 <= i < |r| && r[i].id == id {
        assert a[if i < k then i else i + 1].id == id;
      }
    }

    lemma WithoutHasId(a: Entries, k: nat)
      requires Unique(a) && k < |a|
      ensures Without(a, a[k].id) == a[..k] + a[k + 1..]
      ensures forall id :: HasId(Without(a, a[k].id), id) <==> HasId(a, id) && id != a[k].id
    {
      hide Without;
      WithoutAt(a, k);
      forall id
        ensures HasId(a[..k] + a[k + 1..], id) <==> HasId(a, id) && id != a[k].id
      {
        CutHasId(a, k, id);
      }
    }

    /** Takes a running timer out; the timer behind it takes over its wait. */
    method Unlink(t: MillisTimer, ghost k: nat)
      requires ActiveLinked(sched.active)
      requires k < |sched.active| && sched.active[k].id == t
      modifies `listActive, timers`ms, timers`reload, timers`next, timers`prev, timers`state
      ensures ActiveLinked(sched.active[..k] + sched.active[k + 1..])
      ensures t.state == TimerOff && t.reload == old(t.reload)
      ensures forall u :: u in timers && u != t ==> u.state == old(u.state)
      ensures forall u :: u in timers && !HasId(sched.active, u) ==> unchanged(u)
    {
      ghost var a := sched.active;
      assert ActiveNode(a, k);
      if k + 1 < |a| { assert ActiveNode(a, k + 1); }
      if k > 0 { assert ActiveNode(a, k - 1); }
      if t.next != null {
        t.next.prev := t.prev;
        t.next.ms := t.next.ms + t.ms;
      }
      if t.prev != null {
        t.prev.next := t.next;
      } else {
        listActive := t.next;
      }
      t.state := TimerOff;
      forall i | 0 <= i < |a| && i != k
        ensures CutNode(a, i, k)
      {
        assert old(ActiveNode(a, i));
      }
      CutOut(a, k);
    }

    lemma WaitingStays(w: Entries, a: Entries)
      requires Valid()
      requires a == sched.active && w == sched.waiting
      ensures forall i :: 0 <= i < |w| ==> !HasId(a, w[i].id)
    {
      forall i | 0 <= i < |w|
        ensures !HasId(a, w[i].id)
      {
        assert WaitingNode(w, i);
      }
    }

    method EndActive(t: MillisTimer, ghost k: nat)
      requires Valid()
      requires k < |sched.active| && sched.active[k].id == t
      modifies `listActive, `sched, timers`ms, timers`reload, timers`next, timers`prev, timers`state
      ensures Valid() && sched == TimerSchedule.End(old(sched), t) && t.state == TimerOff
      ensures t.reload == old(t.reload)
    {
      ghost var a, w := sched.active, sched.waiting;
      WaitingStays(w, a);
      WithoutHasId(a, k);
      assert HasId(a, t) && !HasId(w, t);
      WithoutAbsent(w, t);
      Unlink(t, k);
      sched := TimerSchedule.End(sched, t);
      forall i | 0 <= i < |w|
        ensures WaitingNode(w, i)
      {
        assert old(WaitingNode(w, i));
      }
    }

    // ----- The waiting list

    /** Takes a waiting timer out, looking for its predecessor from the head. */
    method UnlinkWaiting(t: MillisTimer, ghost k: nat)
      requires WaitingLinked(sched.waiting, listWaiting)
      requires k < |sched.waiting| && sched.waiting[k].id == t
      modifies `listWaiting, timers`ms, timers`reload, timers`next, timers`prev, timers`state
      ensures WaitingLinked(sched.waiting[..k] + sched.waiting[k + 1..], listWaiting)
      ensures t.state == TimerOff && t.reload == old(t.reload)
      ensures forall u :: u in timers && u != t ==> u.state == old(u.state)
      ensures forall u :: u in timers && !HasId(sched.waiting, u) ==> unchanged(u)
    {
      ghost var w := sched.waiting;
      assert WaitingNode(w, k);
      if listWaiting == t {
        assert k == 0;
        listWaiting := t.next;
      } else {
        var timer := listWaiting;
        ghost var i := 0;
        while timer != null
          invariant 0 <= i < k && timer == w[i].id
          invariant forall u :: u in timers ==> unchanged(u)
          decreases k - i
        {
          assert WaitingNode(w, i);
          if timer.next == t {
            assert i + 1 == k;
            timer.next := t.next;
            break;
          }
          timer := timer.next;
          i := i + 1;
        }
        assert timer == w[k - 1].id && timer.next == t.next;
      }
      t.state := TimerOff;
      ghost var r := w[..k] + w[k + 1..];
      forall i | 0 <= i < |r|
        ensures r[i].id in timers && WaitingNode(r, i)
      {
        assert old(WaitingNode(w, if i < k then i else i + 1));
        assert Ref(r, i + 1) == if i + 1 < k then Ref(w, i + 1) else Ref(w, i + 2);
      }
    }

    method EndWaiting(t: MillisTimer, ghost k: nat)
      requires Valid()
      requires k < |sched.waiting| && sched.waiting[k].id == t
      modifies `listWaiting, `sched, timers`ms, timers`reload, timers`next, timers`prev, timers`state
      ensures Valid() && sched == TimerSchedule.End(old(sched), t) && t.state == TimerOff
    {
      ghost var a, w := sched.active, sched.waiting;
      WithoutHasId(w, k);
      assert HasId(w, t) && !HasId(a, t);
      WithoutAbsent(a, t);
      forall i | 0 <= i < |a|
        ensures !HasId(w, a[i].id)
      {
        assert ActiveNode(a, i);
      }
      UnlinkWaiting(t, k);
      sched := TimerSchedule.End(sched, t);
      forall i | 0 <= i < |a|
        ensures ActiveNode(a, i)
      {
        assert old(ActiveNode(a, i));
      }
    }

    // ----- The public operations

    method End(t: MillisTimer)
      requires Valid() && t in timers
      modifies this, timers`ms, timers`reload, timers`next, timers`prev, timers`state
      ensures Valid() && sched == TimerSchedule.End(old(sched), t) && t.state == TimerOff
    {
      var s := t.state;
      if s == TimerActive {
        ghost var k :| 0 <= k < |sched.active| && sched.active[k].id == t;
        EndActive(t, k);
      } else if s == TimerWaiting {
        ghost var k :| 0 <= k < |sched.waiting| && sched.waiting[k].id == t;
        EndWaiting(t, k);
      } else {
        OffIsUnlisted(t);
      }
    }

    method AddToWaitingList(t: MillisTimer)
      requires Valid() && t in timers && t.state == TimerOff
      modifies this, t`next, t`prev, t`state
      ensures Valid()
      ensures sched == old(sched).(waiting := [Entry(t, old(t.ms), old(t.reload))] + old(sched.waiting))
    {
      hide HasId, Unique, ActiveLinked, WaitingLinked;
      ghost var a, w, e := sched.active, sched.waiting, Entry(t, t.ms, t.reload);
      PrependHasId(w, e);
      LinkWaiting(t, e);
      sched := sched.(waiting := [e] + w);
    }

    method LinkWaiting(t: MillisTimer, ghost e: Entry<MillisTimer>)
      requires ActiveLinked(sched.active) && WaitingLinked(sched.waiting, listWaiting)
      requires t in timers && !HasId(sched.active, t) && !HasId(sched.waiting, t) && e == Entry(t, t.ms, t.reload)
      modifies `listWaiting, t`next, t`prev, t`state
      ensures ActiveLinked(sched.active) && WaitingLinked([e] + sched.waiting, listWaiting)
      ensures t.state == TimerWaiting
    {
      ghost var a, w := sched.active, sched.waiting;
      t.prev := null;
      t.next := listWaiting;
      listWaiting := t;
      t.state := TimerWaiting;
      ghost var r := [e] + w;
      PrependHasId(w, e);
      forall i | 0 <= i < |a|
        ensures ActiveNode(a, i)
      {
        assert old(ActiveNode(a, i));
      }
      forall i | 0 <= i < |r|
        ensures r[i].id in timers && WaitingNode(r, i)
      {
        if i > 0 {
          assert old(WaitingNode(w, i - 1));
          assert Ref(r, i + 1) == Ref(w, i);
        }
      }
    }

    lemma PrependHasId(w: Entries, e: Entry<MillisTimer>)
      ensures forall u :: HasId([e] + w, u) <==> HasId(w, u) || u == e.id
      ensures Unique(w) && !HasId(w, e.id) ==> Unique([e] + w)
    {
      var r := [e] + w;
      forall u
        ensures HasId(r, u) <==> HasId(w, u) || u == e.id
      {
        assert r[0].id == e.id;
        if i :| 0 <= i < |w| && w[i].id == u { assert r[i + 1].id == u; }
        if i :| 0 <= i < |r| && r[i].id == u { assert i > 0 ==> w[i - 1].id == u; }
      }
    }

    method Begin(t: MillisTimer, milliseconds: uint32, event: EventResponders.EventResponder)
      requires Valid() && EventsKnown() && t in timers && event in events.responders
      modifies this, timers`ms, timers`reload, timers`next, timers`prev, timers`state, t`event
      ensures Valid() && sched == TimerSchedule.Begin(old(sched), t, milliseconds, false)
      ensures EventsKnown() && t.event == if milliseconds != 0 then event else old(t.event)
    {
      Start(t, milliseconds, 0, event);
    }

    method BeginRepeating(t: MillisTimer, milliseconds: uint32, event: EventResponders.EventResponder)
      requires Valid() && EventsKnown() && t in timers && event in events.responders
      modifies this, timers`ms, timers`reload, timers`next, timers`prev, timers`state, t`event
      ensures Valid() && sched == TimerSchedule.Begin(old(sched), t, milliseconds, true)
      ensures EventsKnown() && t.event == if milliseconds != 0 then event else old(t.event)
    {
      Start(t, milliseconds, milliseconds, event);
    }

    /** What begin and beginRepeating share; they differ in the period alone. */
    method Start(t: MillisTimer, milliseconds: uint32, reload: uint32, event: EventResponders.EventResponder)
      requires Valid() && EventsKnown() && t in timers && event in events.responders
      modifies this, timers`ms, timers`reload, timers`next, timers`prev, timers`state, t`event
      ensures Valid()
      ensures var s := TimerSchedule.End(old(sched), t);
              sched == if milliseconds == 0 then s
                       else s.(waiting := [Entry(t, Delay(milliseconds), reload)] + s.waiting)
      ensures EventsKnown() && t.event == if milliseconds != 0 then event else old(t.event)
    {
      hide Valid, EventResponders.EventSystem.Sound;
      if t.state != TimerOff {
        End(t);
      } else {
        OffIsUnlisted(t);
      }
      if milliseconds == 0 {
        return;
      }
      SetEvent(t, event);
      SetCountdown(t, if milliseconds > 2 then milliseconds - 2 else 0, reload);
      AddToWaitingList(t);
    }

    method SetEvent(t: MillisTimer, event: EventResponders.EventResponder)
      requires Valid() && EventsKnown() && t in timers && event in events.responders
      modifies t`event
      ensures Valid() && EventsKnown() && t.event == event
    {
      hide EventResponders.EventSystem.Sound;
      t.event := event;
      forall i | 0 <= i < |sched.active|
        ensures ActiveNode(sched.active, i)
      {
        assert old(ActiveNode(sched.active, i));
      }
      forall i | 0 <= i < |sched.waiting|
        ensures WaitingNode(sched.waiting, i)
      {
        assert old(WaitingNode(sched.waiting, i));
      }
    }

    lemma OffIsUnlisted(t: MillisTimer)
      requires Valid() && t in timers && t.state == TimerOff
      ensures TimerSchedule.End(sched, t) == sched
    {
      WithoutAbsent(sched.active, t);
      WithoutAbsent(sched.waiting, t);
    }

    method SetCountdown(t: MillisTimer, ms: uint32, reload: uint32)
      requires Valid() && t in timers && t.state == TimerOff
      modifies t`ms, t`reload
      ensures Valid() && t.state == TimerOff && t.ms == ms && t.reload == reload
    {
      ghost var a, w := sched.active, sched.waiting;
      assert !HasId(a, t) && !HasId(w, t);
      t.ms := ms;
      t.reload := reload;
      forall i | 0 <= i < |a|
        ensures ActiveNode(a, i)
      {
        assert old(ActiveNode(a, i));
      }
      forall i | 0 <= i < |w|
        ensures WaitingNode(w, i)
      {
        assert old(WaitingNode(w, i));
      }
    }

    // ----- The tick

    /** The running list part way through the firing loop: n of the z due timers have fired. */
    ghost function Partway(a: Entries, z: nat, n: nat): Entries
      requires n <= z <= |a|
    {
      a[n..z] + InsertAll(a[z..], Reloads(a[..n]))
    }

    /** The list once its first timer has fired and, when repeating, is back. */
    ghost function Refired(a: Entries): Entries
      requires a != []
    {
      if a[0].reload > 0 then Insert(a[1..], Entry(a[0].id, a[0].reload, a[0].reload)) else a[1..]
    }

    lemma InsertAllAppend(a: Entries, es: Entries, e: Entry<MillisTimer>)
      ensures InsertAll(a, es + [e]) == Insert(InsertAll(a, es), e)
    {
      assert (es + [e])[..|es|] == es;
    }

    lemma ReloadsNext(a: Entries, n: nat)
      requires n < |a|
      ensures Reloads(a[..n + 1]) ==
              Reloads(a[..n]) + if a[n].reload > 0 then [Entry(a[n].id, a[n].reload, a[n].reload)] else []
    {
      assert a[..n + 1][..n] == a[..n];
    }

    lemma PartwayPop(a: Entries, z: nat, n: nat)
      requires n < z <= |a|
      ensures Partway(a, z, n) == [a[n]] + (a[n + 1..z] + InsertAll(a[z..], Reloads(a[..n])))
    {
      hide InsertAll, Reloads;
      var rest := InsertAll(a[z..], Reloads(a[..n]));
      assert a[n..z] == [a[n]] + a[n + 1..z];
      assert [a[n]] + a[n + 1..z] + rest == [a[n]] + (a[n + 1..z] + rest);
    }

    lemma PartwayStep(a: Entries, z: nat, n: nat)
      requires n < z <= |a|
      requires forall i :: 0 <= i < z ==> a[i].due == 0
      ensures Partway(a, z, n) != [] && Partway(a, z, n)[0] == a[n]
      ensures Partway(a, z, n + 1) == Refired(Partway(a, z, n))
    {
      var front, back := a[n + 1..z], Reloads(a[..n]);
      PartwayPop(a, z, n);
      assert Partway(a, z, n)[1..] == front + InsertAll(a[z..], back);
      ReloadsNext(a, n);
      if a[n].reload > 0 {
        var e := Entry(a[n].id, a[n].reload, a[n].reload);
        InsertBehind(front, InsertAll(a[z..], back), e);
        InsertAllAppend(a[z..], back, e);
      } else {
        assert back + [] == back;
      }
    }

    lemma LowerNeighbours(a: Entries, i: nat)
      requires forall j :: 0 <= j < |a| ==> a[j].due > 0
      requires i < |a|
      ensures var r := Lower(a);
              && Base(r, i) == Base(a, i) - (if i == 0 then 0 else 1)
              && Ref(r, i + 1) == Ref(a, i + 1) && Ref(r, i - 1) == Ref(a, i - 1)
    {}

    lemma LowerHasId(a: Entries)
      requires forall j :: 0 <= j < |a| ==> a[j].due > 0
      ensures Unique(a) ==> Unique(Lower(a))
      ensures forall u :: HasId(Lower(a), u) <==> HasId(a, u)
    {
      var r := Lower(a);
      forall u
        ensures HasId(r, u) <==> HasId(a, u)
      {
        if i :| 0 <= i < |a| && a[i].id == u { assert r[i].id == u; }
        if i :| 0 <= i < |r| && r[i].id == u { assert a[i].id == u; }
      }
    }

    lemma AllPositive(a: Entries)
      requires ActiveLinked(a) && a != [] && a[0].due > 0
      ensures forall i :: 0 <= i < |a| ==> a[i].due > 0
    {
      LinkedIsSorted(a);
      assert forall i :: 0 < i < |a| ==> a[0].due <= a[i].due;
    }

    /** Charging one tick to the first timer lowers every deadline by one. */
    method LowerFirst()
      requires Valid() && sched.active != [] && sched.active[0].due > 0
      modifies `sched, timers`ms, timers`reload, timers`next, timers`prev, timers`state
      ensures forall i :: 0 <= i < |old(sched.active)| ==> old(sched.active)[i].due > 0
      ensures Valid() && sched == old(sched).(active := Lower(old(sched.active)))
    {
      ghost var a, w := sched.active, sched.waiting;
      AllPositive(a);
      WaitingStays(w, a);
      DecrementFirst();
      LowerHasId(a);
      sched := sched.(active := Lower(a));
      forall i | 0 <= i < |w|
        ensures WaitingNode(w, i)
      {
        assert old(WaitingNode(w, i));
      }
    }

    method DecrementFirst()
      requires ActiveLinked(sched.active) && sched.active != []
      requires forall i :: 0 <= i < |sched.active| ==> sched.active[i].due > 0
      modifies timers`ms, timers`reload, timers`next, timers`prev, timers`state
      ensures ActiveLinked(Lower(sched.active))
      ensures forall u :: u in timers ==> u.state == old(u.state)
      ensures forall u :: u in timers && !HasId(sched.active, u) ==> unchanged(u)
    {
      ghost var a := sched.active;
      assert ActiveNode(a, 0);
      listActive.ms := listActive.ms - 1;
      ghost var r := Lower(a);
      forall i | 0 <= i < |r|
        ensures r[i].id in timers && ActiveNode(r, i)
      {
        LowerNeighbours(a, i);
        assert old(ActiveNode(a, i));
      }
      LowerHasId(a);
    }

    /** Takes the first timer, which is due, off the list. */
    method PopFirst() returns (timer: MillisTimer)
      requires Valid() && sched.active != []
      requires sched.active[0].due == 0
      modifies `listActive, `sched, timers`ms, timers`reload, timers`next, timers`prev, timers`state
      ensures Valid() && timer.state == TimerOff
      ensures timer == old(sched.active)[0].id && timer.reload == old(sched.active)[0].reload
      ensures sched == old(sched).(active := old(sched.active)[1..])
    {
      hide Without, InsertPos, Unique, HasId, ActiveLinked;
      ghost var a, w := sched.active, sched.waiting;
      WaitingStays(w, a);
      TailHasId(a);
      timer := UnlinkFirst();
      sched := sched.(active := a[1..]);
      forall i | 0 <= i < |w|
        ensures WaitingNode(w, i)
      {
        assert old(WaitingNode(w, i));
      }
    }

    lemma TailHasId(a: Entries)
      requires a != [] && ActiveLinked(a)
      ensures HasId(a, a[0].id)
      ensures forall u :: HasId(a[1..], u) <==> HasId(a, u) && u != a[0].id
    {
      hide Without;
      WithoutHasId(a, 0);
      assert a[..0] + a[1..] == a[1..];
    }

    method UnlinkFirst() returns (timer: MillisTimer)
      requires ActiveLinked(sched.active) && sched.active != []
      requires sched.active[0].due == 0
      modifies `listActive, timers`ms, timers`reload, timers`next, timers`prev, timers`state
      ensures ActiveLinked(sched.active[1..])
      ensures timer == sched.active[0].id && timer.state == TimerOff && timer.reload == sched.active[0].reload
      ensures forall u :: u in timers && u != timer ==> u.state == old(u.state)
      ensures forall u :: u in timers && !HasId(sched.active, u) ==> unchanged(u)
    {
      ghost var a := sched.active;
      timer := CutFirst(a);
      hide CutNode, HasId;
      CutOut(a, 0);
      assert a[..0] + a[1..] == a[1..];
    }

    method CutFirst(ghost a: Entries) returns (timer: MillisTimer)
      requires ActiveLinked(a) && a != [] && a[0].due == 0
      modifies `listActive, timers`next, timers`prev, timers`state
      ensures listActive == Ref(a, 1) && forall i :: 0 < i < |a| ==> CutNode(a, i, 0)
      ensures timer == a[0].id && timer.state == TimerOff && timer.reload == a[0].reload
      ensures forall u :: u in timers && u != timer ==> u.state == old(u.state)
      ensures forall u :: u in timers && !HasId(a, u) ==> unchanged(u)
    {
      assert ActiveNode(a, 0);
      if |a| > 1 { assert ActiveNode(a, 1); }
      timer := listActive;
      var next := timer.next;
      if next != null {
        next.prev := null;
      }
      listActive := next;
      timer.state := TimerOff;
      forall i | 0 < i < |a|
        ensures CutNode(a, i, 0)
      {
        assert old(ActiveNode(a, i));
      }
    }

    lemma FirstTimer()
      requires Valid()
      ensures Sorted(sched.active)
      ensures listActive == null <==> sched.active == []
      ensures listActive != null ==> listActive == sched.active[0].id && listActive.ms == sched.active[0].due
      ensures sched.active != [] ==> sched.active[0].id in timers
    {
      LinkedIsSorted(sched.active);
      if sched.active != [] { assert ActiveNode(sched.active, 0); }
    }

    lemma PartwayStart(a: Entries)
      ensures Partway(a, Zeros(a), 0) == a
    {
      var z := Zeros(a);
      assert a[0..z] + a[z..] == a;
    }

    lemma PartwayEnd(a: Entries, w: Entries)
      requires Sorted(a)
      ensures Partway(a, Zeros(a), Zeros(a)) == Running(Schedule(a, w))
    {
      var z := Zeros(a);
      EmptyFront(a[z..z], InsertAll(a[z..], Reloads(a[..z])));
    }

    lemma EmptyFront(none: Entries, rest: Entries)
      requires none == []
      ensures none + rest == rest
    {}

    /** Before the last due timer has fired the list starts with a due timer; after it, with none. */
    lemma PartwayFirst(a: Entries, n: nat)
      requires Sorted(a) && n <= Zeros(a) && Partway(a, Zeros(a), n) != []
      ensures Partway(a, Zeros(a), n)[0].due > 0 <==> n == Zeros(a)
      ensures n < Zeros(a) ==> Partway(a, Zeros(a), n)[0] == a[n]
    {
      var z := Zeros(a);
      if n < z {
        PartwayStep(a, z, n);
      } else {
        assert Partway(a, z, z) == Running(Schedule(a, []));
      }
    }

    method FireFirst() returns (timer: MillisTimer)
      requires Valid() && EventsKnown() && sched.active != [] && sched.active[0].due == 0
      modifies `listActive, `sched, timers`ms, timers`reload, timers`next, timers`prev, timers`state,
               events`ev, events.onYield, events.onInterrupt, events.responders
      ensures Valid()
      ensures timer == old(sched.active)[0].id && timer in timers
      ensures EventsKnown() && timer.event in old(events.ev).kind && timer.event in events.responders
      ensures events.ev == EventQueues.Trigger(old(events.ev), timer.event)
      ensures forall x :: x in events.responders ==> x.status == if x == timer.event then 0 else old(x.status)
      ensures sched == old(sched).(active := Refired(old(sched.active)))
    {
      hide Valid, EventResponders.EventSystem.Sound, EventQueues.Trigger, Insert;
      FirstTimer();
      events.KindsKnown();
      timer := PopFirst();
      events.TriggerEvent(timer.event, 0);
      if timer.reload != 0 {
        Reload(timer);
      }
    }

    /** The fired timers' events have status 0, and every other responder has the status it had. */
    ghost predicate StatusesAfter(was: map<EventResponders.EventResponder, int>, fired: seq<MillisTimer>)
      reads events.responders`status, (set t | t in fired)`event
    {
      && was.Keys == events.responders
      && (forall t :: t in fired ==> t.event in events.responders && t.event.status == 0)
      && forall x :: x in events.responders && x !in EventsOf(fired) ==> x.status == was[x]
    }

    ghost function Statuses(): map<EventResponders.EventResponder, int>
      reads events.responders`status
    {
      map x | x in events.responders :: x.status
    }

    lemma StatusesUnchanged()
      ensures StatusesAfter(Statuses(), [])
    {}

    /** The events took one trigger from each fired timer, in order, each with status 0. */
    ghost predicate Accounted(e: EventQueues.Events<EventResponders.EventResponder>,
                              was: map<EventResponders.EventResponder, int>, fired: seq<MillisTimer>)
      reads timers`event, events, events.onYield, events.onInterrupt, events.responders, (set t | t in fired)`event
    {
      && EventsKnown() && (forall t :: t in fired ==> t in timers)
      && (forall r :: r in EventsOf(fired) ==> r in e.kind)
      && events.ev == EventQueues.TriggerAll(e, EventsOf(fired))
      && StatusesAfter(was, fired)
    }

    lemma NoneAccounted()
      requires EventsKnown()
      ensures Accounted(events.ev, Statuses(), [])
    {
      hide EventsKnown;
      NoneFired(events.ev);
      StatusesUnchanged();
    }

    /** Fires the first timer, keeping account of what it triggers. */
    method FireNext(ghost e: EventQueues.Events<EventResponders.EventResponder>,
                    ghost was: map<EventResponders.EventResponder, int>, ghost fired: seq<MillisTimer>)
      returns (timer: MillisTimer)
      requires Valid() && sched.active != [] && sched.active[0].due == 0
      requires Accounted(e, was, fired)
      modifies `listActive, `sched, timers`ms, timers`reload, timers`next, timers`prev, timers`state,
               events`ev, events.onYield, events.onInterrupt, events.responders
      ensures Valid()
      ensures timer == old(sched.active)[0].id
      ensures Accounted(e, was, fired + [timer])
      ensures sched == old(sched).(active := Refired(old(sched.active)))
    {
      hide Valid, EventsKnown, EventQueues.Trigger, EventQueues.TriggerAll, Refired;
      timer := FireFirst();
      TriggerNext(e, fired, timer);
      forall t | t in fired + [timer]
        ensures t in timers && t.event in events.responders && t.event.status == 0
      {
        assert t in fired || t == timer;
      }
    }

    /** A repeating timer goes straight back on the running list, due after its whole period. */
    method Reload(timer: MillisTimer)
      requires Valid() && timer in timers && timer.state == TimerOff
      modifies `listActive, `sched, timers`ms, timers`reload, timers`next, timers`prev, timers`state
      ensures Valid()
      ensures var r := old(timer.reload);
              sched == old(sched).(active := Insert(old(sched.active), Entry(timer, r, r)))
    {
      hide Insert;
      var reload := timer.reload;
      SetCountdown(timer, reload, reload);
      AddToActiveList(timer, sched.waiting, listWaiting);
    }

    /** The firing loop: fires the due timers in list order, puts the repeating ones back, and charges
      the tick to the first timer that is not due. It ends because no timer is put back as due. */
    method FireDue() returns (fired: seq<MillisTimer>)
      requires Valid() && EventsKnown()
      modifies `listActive, `sched, timers`ms, timers`reload, timers`next, timers`prev, timers`state,
               events`ev, events.onYield, events.onInterrupt, events.responders
      ensures Valid() && Sorted(old(sched.active))
      ensures fired == Ids(Fired(old(sched)))
      ensures Accounted(old(events.ev), old(Statuses()), fired)
      ensures sched == old(sched).(active := Lower(Running(old(sched))))
    {
      hide Valid, Accounted, Partway, Refired, Running, Sorted, Lower, EventsKnown;
      ghost var a, z, n := sched.active, Zeros(sched.active), 0;
      ghost var e, was := events.ev, Statuses();
      NoneAccounted();
      FirstTimer();
      PartwayStart(a);
      PartwayEnd(a, sched.waiting);
      fired := [];
      var timer := listActive;
      while timer != null
        invariant Valid() && timer == listActive && sched.waiting == old(sched.waiting)
        invariant n <= z && sched.active == Partway(a, z, n)
        invariant fired == Ids(a[..n]) && Accounted(e, was, fired)
        decreases z - n
      {
        FirstTimer();
        PartwayFirst(a, n);
        if timer.ms > 0 {
          LowerFirst();
          return;
        }
        PartwayStep(a, z, n);
        timer := FireNext(e, was, fired);
        fired := fired + [timer];
        n := n + 1;
        timer := listActive;
      }
      FirstTimer();
      PartwayNonempty(a, z, n);
    }

    lemma NoneFired(e: EventQueues.Events<EventResponders.EventResponder>)
      ensures EventsOf([]) == [] && EventQueues.TriggerAll(e, []) == e
    {}

    lemma PartwayNonempty(a: Entries, z: nat, n: nat)
      requires n <= z <= |a|
      ensures n < z ==> Partway(a, z, n) != []
    {}

    /** The tick interrupt: fires what is due, then starts the waiting timers, most recently begun first. */
    method RunFromTimer() returns (fired: seq<MillisTimer>)
      requires Valid() && EventsKnown()
      modifies this, timers`ms, timers`reload, timers`next, timers`prev, timers`state,
               events`ev, events.onYield, events.onInterrupt, events.responders
      ensures Valid() && Sorted(old(sched.active))
      ensures fired == Ids(Fired(old(sched))) && forall t :: t in fired ==> t in timers
      ensures EventsKnown() && forall r :: r in EventsOf(fired) ==> r in old(events.ev).kind
      ensures events.ev == EventQueues.TriggerAll(old(events.ev), EventsOf(fired))
      ensures StatusesAfter(old(Statuses()), fired)
      ensures sched == Tick(old(sched))
    {
      hide Valid, Consistent, EventsKnown, EventQueues.TriggerAll, EventsOf, Fired, Running, Lower, InsertAll;
      fired := FireDue();
      ghost var w := sched.waiting;
      var waiting := TakeWaitingList();
      StartWaiting(waiting, w);
    }

    method TakeWaitingList() returns (waiting: MillisTimer?)
      requires Valid()
      modifies `listWaiting, `sched
      ensures listWaiting == null && sched == old(sched).(waiting := [])
      ensures Consistent(old(sched.waiting), waiting, {})
    {
      waiting := listWaiting;
      listWaiting := null;
      sched := sched.(waiting := []);
    }

    method StartWaiting(head: MillisTimer?, ghost w: Entries)
      requires Consistent(w, head, {}) && sched.waiting == [] && listWaiting == null
      modifies `listActive, `sched, timers`ms, timers`reload, timers`next, timers`prev, timers`state
      ensures Valid()
      ensures sched == Schedule(InsertAll(old(sched.active), w), [])
    {
      ghost var a, n := sched.active, 0;
      assert w[0..] == w;
      var waiting := head;
      while waiting != null
        invariant n <= |w| && Consistent(w[n..], waiting, {})
        invariant sched == Schedule(InsertAll(a, w[..n]), []) && listWaiting == null
        decreases |w| - n
      {
        ghost var u := w[n..];
        var next := waiting.next;
        TakeWaiting(u);
        AddToActiveList(waiting, u[1..], next);
        InsertAllAppend(a, w[..n], w[n]);
        assert u[1..] == w[n + 1..] && w[..n + 1] == w[..n] + [w[n]];
        waiting := next;
        n := n + 1;
      }
      assert w[..n] == w;
    }

    lemma TakeWaiting(u: Entries)
      requires u != [] && Consistent(u, u[0].id, {})
      ensures u[0].id in timers && Consistent(u[1..], u[0].id.next, {u[0].id})
      ensures u[0].id.ms == u[0].due && u[0].id.reload == u[0].reload
    {
      var v := u[1..];
      assert WaitingNode(u, 0);
      assert HasId(u, u[0].id);
      forall i | 0 <= i < |v|
        ensures WaitingNode(v, i)
      {
        assert WaitingNode(u, i + 1);
        assert Ref(v, i + 1) == Ref(u, i + 2);
      }
      forall t
        ensures HasId(v, t) <==> HasId(u, t) && t != u[0].id
      {
        if i :| 0 <= i < |v| && v[i].id == t { assert u[i + 1].id == t; }
        if i :| 0 < i < |u| && u[i].id == t { assert v[i - 1].id == t; }
      }
    }

    // ----- Whole runs on the linked lists

    ghost predicate CallKnown(c: Call) {
      && (c.BeginTimer? || c.EndTimer? ==> c.id in timers)
      && (c.BeginTimer? ==> c.event in events.responders)
    }

    /** Which event each timer triggers. */
    ghost function EventMap(): map<MillisTimer, EventResponders.EventResponder>
      reads timers`event
    {
      map t | t in timers :: t.event
    }

    /** A begin with a time sets that timer's event and no other, and what a tick fires triggers its events, in order,
      and no others. */
    method Perform(c: Call) returns (fired: seq<MillisTimer>)
      requires Valid() && EventsKnown() && CallKnown(c)
      modifies this, timers, events`ev, events.onYield, events.onInterrupt, events.responders
      ensures Valid() && EventsKnown() && WellFormed(old(sched))
      ensures sched == TimerRuns.Step(old(sched), OpOf(c))
      ensures fired == if c.TickInterrupt? then Ids(Fired(old(sched))) else []
      ensures EventMap() == EventsAfter(old(EventMap()), c)
      ensures var triggered := EventsIn(old(EventMap()), fired);
              && (forall r :: r in triggered ==> r in old(events.ev).kind)
              && events.ev == EventQueues.TriggerAll(old(events.ev), triggered)
    {
      hide Valid, EventsKnown, TimerSchedule.Begin, TimerSchedule.End, Tick, EventMap, EventQueues.TriggerAll;
      ValidIsWellFormed();
      NoneFired(events.ev);
      fired := [];
      match c
      case BeginTimer(t, ms, repeating, event) =>
        PerformBegin(t, ms, repeating, event);
      case EndTimer(t) =>
        KeepsEventsKnown(t);
      case TickInterrupt =>
        fired := PerformTick();
    }

    method PerformBegin(t: MillisTimer, ms: uint32, repeating: bool, event: EventResponders.EventResponder)
      requires Valid() && EventsKnown() && t in timers && event in events.responders
      modifies this, timers`ms, timers`reload, timers`next, timers`prev, timers`state, t`event
      ensures Valid() && EventsKnown()
      ensures sched == TimerSchedule.Begin(old(sched), t, ms, repeating)
      ensures EventMap() == if ms != 0 then old(EventMap())[t := event] else old(EventMap())
    {
      hide Valid, EventsKnown, TimerSchedule.Begin;
      if repeating {
        BeginRepeating(t, ms, event);
      } else {
        Begin(t, ms, event);
      }
    }

    method PerformTick() returns (fired: seq<MillisTimer>)
      requires Valid() && EventsKnown()
      modifies this, timers`ms, timers`reload, timers`next, timers`prev, timers`state,
               events`ev, events.onYield, events.onInterrupt, events.responders
      ensures Valid() && Sorted(old(sched.active)) && EventsKnown() && EventMap() == old(EventMap())
      ensures sched == Tick(old(sched)) && fired == Ids(Fired(old(sched)))
      ensures var triggered := EventsIn(old(EventMap()), fired);
              && (forall r :: r in triggered ==> r in old(events.ev).kind)
              && events.ev == EventQueues.TriggerAll(old(events.ev), triggered)
    {
      hide Valid, EventsKnown, Sorted, Tick, Fired, StatusesAfter, EventQueues.TriggerAll;
      fired := RunFromTimer();
      EventsAreIn(fired);
    }

    lemma {:induction false} EventsAreIn(ts: seq<MillisTimer>)
      requires forall t :: t in ts ==> t in timers
      ensures EventsOf(ts) == EventsIn(EventMap(), ts)
    {
      if ts != [] {
        assert ts[|ts| - 1] in ts;
        EventsAreIn(ts[..|ts| - 1]);
      }
    }

    method KeepsEventsKnown(t: MillisTimer)
      requires Valid() && EventsKnown() && t in timers
      modifies this, timers`ms, timers`reload, timers`next, timers`prev, timers`state
      ensures Valid() && EventsKnown() && sched == TimerSchedule.End(old(sched), t)
    {
      hide Valid, EventResponders.EventSystem.Sound;
      End(t);
    }

    /** Any sequence of calls and ticks: the linked lists go through the schedule's run, and what fires on each tick
      is the run's log. */
    method PerformAll(calls: seq<Call>) returns (log: seq<seq<MillisTimer>>)
      requires Valid() && EventsKnown() && forall c :: c in calls ==> CallKnown(c)
      modifies this, timers, events`ev, events.onYield, events.onInterrupt, events.responders
      ensures Valid() && EventsKnown() && WellFormed(old(sched))
      ensures sched == TimerRuns.Run(old(sched), OpsOf(calls))
      ensures log == TimerRuns.FiringLog(old(sched), OpsOf(calls))
      ensures EventMap() == EventsAfterAll(old(EventMap()), calls)
      ensures var triggered := TriggeredBy(old(EventMap()), calls, log);
              && (forall r :: r in triggered ==> r in old(events.ev).kind)
              && events.ev == EventQueues.TriggerAll(old(events.ev), triggered)
    {
      hide Valid, EventsKnown, TimerRuns.Step, Fired, WellFormed, Onward, TriggeredBy, EventsIn, EventsAfter, EventMap,
           EventQueues.TriggerAll;
      ghost var e, m, triggered := events.ev, EventMap(), [];
      ValidIsWellFormed();
      NoneFired(e);
      NothingTriggered(m);
      log := [];
      var i := 0;
      Outset(sched, calls);
      assert calls[..0] == [];
      while i < |calls|
        invariant i <= |calls| && Valid() && EventsKnown()
        invariant Onward(old(sched), calls, sched, i, log)
        invariant EventMap() == EventsAfterAll(m, calls[..i]) && triggered == TriggeredBy(m, calls[..i], log)
        invariant (forall r :: r in triggered ==> r in e.kind) && events.ev == EventQueues.TriggerAll(e, triggered)
      {
        OneStepOnward(old(sched), calls, sched, i, log);
        ghost var before := EventMap();
        var fired := Perform(calls[i]);
        TriggeredNext(m, calls, i, log, fired);
        EventQueues.TriggerAllConcat(e, triggered, EventsIn(before, fired));
        triggered := triggered + EventsIn(before, fired);
        log := log + if calls[i].TickInterrupt? then [fired] else [];
        i := i + 1;
      }
      Arrival(old(sched), calls, sched, log);
      assert calls[..i] == calls;
    }

    lemma NothingTriggered(m: map<MillisTimer, EventResponders.EventResponder>)
      ensures TriggeredBy(m, [], []) == [] && EventsAfterAll(m, []) == m
    {}

    /** After i calls of a run from s0 the schedule is s and the log so far is `log`. */
    ghost predicate Onward(s0: Schedule<MillisTimer>, calls: seq<Call>, s: Schedule<MillisTimer>, i: nat,
                           log: seq<seq<MillisTimer>>)
    {
      && i <= |calls| && WellFormed(s0) && WellFormed(s)
      && TimerRuns.Run(s, OpsOf(calls[i..])) == TimerRuns.Run(s0, OpsOf(calls))
      && log + TimerRuns.FiringLog(s, OpsOf(calls[i..])) == TimerRuns.FiringLog(s0, OpsOf(calls))
    }

    lemma Outset(s: Schedule<MillisTimer>, calls: seq<Call>)
      requires WellFormed(s)
      ensures Onward(s, calls, s, 0, [])
    {
      hide WellFormed;
      assert calls[0..] == calls;
    }

    lemma OneStepOnward(s0: Schedule<MillisTimer>, calls: seq<Call>, s: Schedule<MillisTimer>, i: nat,
                        log: seq<seq<MillisTimer>>)
      requires Onward(s0, calls, s, i, log) && i < |calls|
      ensures WellFormed(s)
      ensures Onward(s0, calls, TimerRuns.Step(s, OpOf(calls[i])), i + 1,
                     log + if calls[i].TickInterrupt? then [Ids(Fired(s))] else [])
    {
      FirstStep(s, calls, i);
    }

    lemma Arrival(s0: Schedule<MillisTimer>, calls: seq<Call>, s: Schedule<MillisTimer>, log: seq<seq<MillisTimer>>)
      requires Onward(s0, calls, s, |calls|, log)
      ensures WellFormed(s0) && s == TimerRuns.Run(s0, OpsOf(calls)) && log == TimerRuns.FiringLog(s0, OpsOf(calls))
    {
      hide WellFormed;
      assert OpsOf(calls[|calls|..]) == [];
    }

    /** The firing times on the linked lists: a timer begun with ms >= 1, and then left alone, is fired by tick
      max(ms, 2) and, if repeating, by every ms-th tick after that, and by no other. */
    method BeginAndPerform(t: MillisTimer, ms: uint32, repeating: bool, event: EventResponders.EventResponder,
                           calls: seq<Call>) returns (log: seq<seq<MillisTimer>>)
      requires Valid() && EventsKnown() && t in timers && event in events.responders
      requires forall c :: c in calls ==> CallKnown(c) && (c.BeginTimer? || c.EndTimer? ==> c.id != t)
      modifies this, timers, events`ev, events.onYield, events.onInterrupt, events.responders
      ensures Valid() && EventsKnown()
      ensures TimerRuns.FiresWhenDue(t, ms, repeating, log)
    {
      hide Valid, EventsKnown, TimerRuns.Step, TimerRuns.FiresWhenDue;
      NotMentioned(t, calls);
      var fired := Perform(BeginTimer(t, ms, repeating, event));
      log := PerformAll(calls);
      TimerRuns.FiringTimes(old(sched), t, ms, repeating, OpsOf(calls));
    }

    lemma FirstStep(s: Schedule<MillisTimer>, calls: seq<Call>, i: nat)
      requires WellFormed(s) && i < |calls|
      ensures var s' := TimerRuns.Step(s, OpOf(calls[i]));
              && WellFormed(s')
              && TimerRuns.Run(s, OpsOf(calls[i..])) == TimerRuns.Run(s', OpsOf(calls[i + 1..]))
              && TimerRuns.FiringLog(s, OpsOf(calls[i..])) ==
                 (if calls[i].TickInterrupt? then [Ids(Fired(s))] else []) +
                 TimerRuns.FiringLog(s', OpsOf(calls[i + 1..]))
    {
      hide WellFormed, TimerRuns.Step, Fired;
      TimerRuns.StepKeepsWellFormed(s, OpOf(calls[i]));
      assert OpsOf(calls[i..])[1..] == OpsOf(calls[i + 1..]);
    }

    lemma NotMentioned(t: MillisTimer, calls: seq<Call>)
      requires forall c :: c in calls ==> (c.BeginTimer? || c.EndTimer? ==> c.id != t)
      ensures !TimerRuns.Mentions(OpsOf(calls), t)
    {
      forall i | 0 <= i < |calls|
        ensures OpsOf(calls)[i].Tick? || OpsOf(calls)[i].id != t
      {
        assert calls[i] in calls;
      }
    }
  }
}

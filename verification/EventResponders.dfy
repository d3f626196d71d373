/** The linked form of the event queues. Each queue is a doubly linked list through
  the responders themselves; every method is proved to do to the lists and flags
  what the same operation of EventQueues does to the values. */
module EventResponders {
  import opened Histories
  import opened Options
  import opened EventQueues

  class EventResponder {
    var status: int
    var kind: Kind
    var triggered: bool
    var next: EventResponder?
    var prev: EventResponder?

    constructor ()
      ensures kind == Detached && !triggered
    {
      status, kind, triggered, next, prev := 0, Detached, false, null, null;
    }
  }

  ghost function Ref(q: seq<EventResponder>, i: int): EventResponder? {
    if 0 <= i < |q| then q[i] else null
  }

  ghost predicate Node(q: seq<EventResponder>, i: nat)
    requires i < |q|
    reads (set x | x in q)`next, (set x | x in q)`prev
  {
    q[i].next == Ref(q, i + 1) && q[i].prev == Ref(q, i - 1)
  }

  /** firstYield and lastYield, or firstInterrupt and lastInterrupt. */
  class ResponderList {
    var first: EventResponder?
    var last: EventResponder?

    constructor ()
      ensures Linked([])
    {
      first, last := null, null;
    }

    ghost predicate Linked(q: seq<EventResponder>)
      reads this, (set x | x in q)`next, (set x | x in q)`prev
    {
      && Distinct(q)
      && first == Ref(q, 0) && last == Ref(q, |q| - 1)
      && forall i :: 0 <= i < |q| ==> Node(q, i)
    }

    method Append(r: EventResponder, ghost q: seq<EventResponder>)
      requires Linked(q) && r !in q
      modifies this, r`next, r`prev, (set x | x in q)`next
      ensures Linked(q + [r])
    {
      if first == null {
        r.next := null;
        r.prev := null;
        first := r;
        last := r;
      } else {
        r.next := null;
        r.prev := last;
        r.prev.next := r;
        last := r;
      }
      ghost var q' := q + [r];
      forall i | 0 <= i < |q'|
        ensures Node(q', i)
      {
        if i < |q| { assert old(Node(q, i)); }
      }
    }

    /** Unlinking does not check that r is on the list. If it has been taken off as its first, with no predecessor,
      what it names as next becomes the first: the list survives if and only if that is the first already. */
    method Unlink(r: EventResponder, ghost q: seq<EventResponder>)
      requires Linked(q) && (r in q || r.prev == null)
      modifies this, (set x | x in q)`next, (set x | x in q)`prev, (if r.next == null then {} else {r.next})`prev
      ensures r in q ==> Linked(Remove(q, r)) && (old(r.next) == null || old(r.next) in q)
      ensures r !in q ==> (Linked(q) <==> old(r.next) == Ref(q, 0))
      ensures r !in q ==> first == old(r.next) && if first == null then last == null else first.prev == null
    {
      hide IndexOf, Drop;
      if r in q {
        LinkOf(r, q);
      }
      if r.prev != null {
        r.prev.next := r.next;
      } else {
        first := r.next;
      }
      if r.next != null {
        r.next.prev := r.prev;
      } else {
        last := r.prev;
      }
      if r in q {
        ghost var i, q' := IndexOf(q, r), Remove(q, r);
        DropDistinct(q, r);
        RefAfterDrop(q, i, 0);
        RefAfterDrop(q, i, |q| - 2);
        forall j | 0 <= j < |q'|
          ensures Node(q', j)
        {
          assert old(Node(q, if j < i then j else j + 1));
          RefAfterDrop(q, i, j);
          RefAfterDrop(q, i, j + 1);
          RefAfterDrop(q, i, j - 1);
        }
      } else if old(r.next) == Ref(q, 0) {
        forall j | 0 <= j < |q|
          ensures Node(q, j)
        {
          assert old(Node(q, j));
        }
      }
    }

    lemma RefAfterDrop(q: seq<EventResponder>, i: nat, j: int)
      requires i < |q|
      ensures Ref(Drop(q, i), j) == if j < i then Ref(q, j) else Ref(q, j + 1)
    {}

    lemma LinkedIsDistinct(q: seq<EventResponder>)
      requires Linked(q)
      ensures Distinct(q)
    {}

    lemma LinkOf(r: EventResponder, q: seq<EventResponder>)
      requires Linked(q) && r in q
      ensures var i := IndexOf(q, r); r.next == Ref(q, i + 1) && r.prev == Ref(q, i - 1)
    {
      assert Node(q, IndexOf(q, r));
    }

    /** Takes the first off the list; its own links stay as they are. */
    method Pop(ghost q: seq<EventResponder>) returns (r: EventResponder?)
      requires Linked(q)
      modifies this, (set x | x in q)`prev
      ensures if q == [] then r == null && Linked(q) else r == q[0] && Linked(q[1..])
      ensures q != [] ==> r.prev == null && r.next == Ref(q[1..], 0)
    {
      r := first;
      if r != null {
        assert Node(q, 0);
        first := r.next;
        if first != null {
          first.prev := null;
        } else {
          last := null;
        }
        ghost var q' := q[1..];
        forall j | 0 <= j < |q'|
          ensures Node(q', j)
        {
          assert old(Node(q, j + 1));
          assert Ref(q', j + 1) == Ref(q, j + 2);
          assert Ref(q', j - 1) == if j == 0 then null else Ref(q, j);
        }
      }
    }
  }

  ghost function OrNull(r: Option<EventResponder>): EventResponder? {
    match r
    case None => null
    case Some(x) => x
  }

  class EventSystem {
    const onYield: ResponderList
    const onInterrupt: ResponderList
    var runningFromYield: bool
    /** The responders that the dispatches under way have taken off and not called yet. */
    var inYield: EventResponder?
    var inInterrupt: EventResponder?
    ghost const responders: set<EventResponder>
    ghost var ev: Events<EventResponder>

    constructor (responders: set<EventResponder>)
      requires forall r :: r in responders ==> r.kind == Detached && !r.triggered
      ensures Valid() && !runningFromYield && this.responders == responders
      ensures ev.onYield.queue == ev.onInterrupt.queue == [] && ev.triggered == {}
      ensures fresh(onYield) && fresh(onInterrupt)
    {
      onYield := new ResponderList();
      onInterrupt := new ResponderList();
      runningFromYield, inYield, inInterrupt := false, null, null;
      this.responders := responders;
      ev := Events(map r | r in responders :: Detached, {},
                   Queue([], None, None, true, [], [], {}), Queue([], None, None, true, [], [], {}), []);
    }

    /** The two lists run through the responders of qy and qi. */
    ghost predicate Lists(qy: seq<EventResponder>, qi: seq<EventResponder>)
      reads onYield, onInterrupt, (set x | x in qy)`next, (set x | x in qy)`prev,
            (set x | x in qi)`next, (set x | x in qi)`prev
    {
      && onYield != onInterrupt
      && (forall r :: r in qy ==> r in responders && r !in qi)
      && (forall r :: r in qi ==> r in responders)
      && onYield.Linked(qy) && onInterrupt.Linked(qi)
    }

    ghost predicate Flags(kind: map<EventResponder, Kind>, triggered: set<EventResponder>)
      reads responders`kind, responders`triggered
    {
      && kind.Keys == responders
      && (forall r :: r in responders ==> r.kind == kind[r] && (r.triggered <==> r in triggered))
    }

    /** The links of a responder that a dispatch has taken off are as they were when it was the first. */
    ghost predicate Frozen(q: Queue<EventResponder>)
      reads responders`next, responders`prev
    {
      q.flying.Some? ==>
        && q.flying.value in responders
        && q.flying.value.prev == null && q.flying.value.next == OrNull(q.behind)
        && (q.behind.Some? ==> q.behind.value in responders)
    }

    /** The lists and flags are those of ev, and its queues are exact. */
    ghost predicate Sound()
      reads this, onYield, onInterrupt, responders
    {
      && Exact(ev) && Flags(ev.kind, ev.triggered)
      && inYield == OrNull(ev.onYield.flying) && inInterrupt == OrNull(ev.onInterrupt.flying)
      && (inYield != null ==> runningFromYield && inYield in responders)
      && (inInterrupt != null ==> inInterrupt in responders)
      && (forall r :: r in ev.onYield.queue ==> r in responders)
      && (forall r :: r in ev.onInterrupt.queue ==> r in responders)
      && Lists(ev.onYield.queue, ev.onInterrupt.queue)
    }

    /** The dispatches under way will leave them so, too. */
    ghost predicate Valid()
      reads this, onYield, onInterrupt, responders
    {
      Sound() && Inv(ev) && Frozen(ev.onYield) && Frozen(ev.onInterrupt)
    }

    lemma KindsKnown()
      requires Sound()
      ensures ev.kind.Keys == responders
      ensures forall r :: r in responders ==> ev.kind[r] == r.kind
    {}

    lemma ListsKnown(qy: seq<EventResponder>, qi: seq<EventResponder>)
      requires Lists(qy, qi)
      ensures Distinct(qy) && Distinct(qi)
      ensures (forall r :: r in qy ==> r in responders) && (forall r :: r in qi ==> r in responders)
    {}

    /** Puts r at the end of the list its kind names, if it names one. */
    method AppendByKind(r: EventResponder, ghost qy: seq<EventResponder>, ghost qi: seq<EventResponder>)
      requires Lists(qy, qi) && r in responders && r !in qy && r !in qi
      modifies onYield, onInterrupt, responders`next, responders`prev
      ensures Lists(if r.kind == OnYield then qy + [r] else qy, if r.kind == OnInterrupt then qi + [r] else qi)
      ensures forall x :: x in responders && (x != r || r.kind !in DISPATCHED) && x !in qy && x !in qi ==> unchanged(x)
    {
      if r.kind == OnYield {
        onYield.Append(r, qy);
      } else if r.kind == OnInterrupt {
        onInterrupt.Append(r, qi);
      }
    }

    /** The lists and flags of e, whatever its histories. */
    ghost predicate Shows(e: Events<EventResponder>)
      reads onYield, onInterrupt, responders,
            (set x | x in e.onYield.queue)`next, (set x | x in e.onYield.queue)`prev,
            (set x | x in e.onInterrupt.queue)`next, (set x | x in e.onInterrupt.queue)`prev
    {
      Lists(e.onYield.queue, e.onInterrupt.queue) && Flags(e.kind, e.triggered)
    }

    method QueueTrigger(r: EventResponder, ghost e: Events<EventResponder>)
      requires Shows(e) && r in responders && r.kind != Immediate
      requires r !in e.triggered ==> r !in e.onYield.queue && r !in e.onInterrupt.queue
      modifies onYield, onInterrupt, responders`next, responders`prev, r`triggered
      ensures Shows(Trigger(e, r))
      ensures forall x ::
                (x in responders && (x != r || r in e.triggered || r.kind !in DISPATCHED)
                 && x !in e.onYield.queue && x !in e.onInterrupt.queue) ==>
                  x.next == old(x.next) && x.prev == old(x.prev)
    {
      hide Lists;
      if !r.triggered {
        AppendByKind(r, e.onYield.queue, e.onInterrupt.queue);
        r.triggered := true;
      }
    }

    /** Triggering keeps the queues exact; it upsets the end of a dispatch if and only if it queues the responder
      that is about to be called. */
    method TriggerEventNotImmediate(r: EventResponder)
      requires Sound() && r in responders && r.kind != Immediate
      modifies this`ev, onYield, onInterrupt, responders`next, responders`prev, r`triggered
      ensures Sound() && ev == Trigger(old(ev), r) && ev.immediate == old(ev).immediate
      ensures old(Valid()) ==> (Valid() <==> TriggerIsSafe(old(ev), r))
    {
      hide Exact, OffQueues, Trigger, Lists, Flags, TriggerIsSafe, Flying;
      KindsKnown();
      TriggerKeepsExact(ev, r);
      if Inv(ev) {
        TriggerKeepsInv(ev, r);
      }
      TriggerKeepsDispatches(ev, r);
      TriggerQueues(ev, r);
      UntriggeredIsUnqueued(r);
      FlyingStays(r, ev.onYield.flying);
      FlyingStays(r, ev.onInterrupt.flying);
      QueueTrigger(r, ev);
      ev := Trigger(ev, r);
      ListsKnown(ev.onYield.queue, ev.onInterrupt.queue);
    }

    /** What a safe trigger does not queue. */
    lemma FlyingStays(r: EventResponder, flying: Option<EventResponder>)
      requires Sound() && r in responders && flying in {ev.onYield.flying, ev.onInterrupt.flying}
      ensures flying.Some? && Inv(ev) && TriggerIsSafe(ev, r) ==>
                var x := flying.value;
                && (x != r || r in ev.triggered || r.kind !in DISPATCHED)
                && x !in ev.onYield.queue && x !in ev.onInterrupt.queue
    {
      if flying.Some? { assert Flying(ev, flying.value); }
    }

    lemma UntriggeredIsUnqueued(r: EventResponder)
      requires Exact(ev)
      ensures r !in ev.triggered ==> r !in ev.onYield.queue && r !in ev.onInterrupt.queue
    {}

    lemma FlyingIsUnqueued()
      requires Inv(ev)
      ensures forall x :: Flying(ev, x) ==> x !in ev.onYield.queue && x !in ev.onInterrupt.queue
    {}

    method TriggerEvent(r: EventResponder, status: int)
      requires Sound() && r in responders
      modifies this`ev, onYield, onInterrupt, responders
      ensures Sound() && ev == Trigger(old(ev), r)
      ensures ev.immediate == old(ev).immediate + if old(r.kind) == Immediate then [r] else []
      ensures forall k :: k in DISPATCHED ==>
                QueueFor(ev, k).queue ==
                QueueFor(old(ev), k).queue + if old(r.kind) == k && !old(r.triggered) then [r] else []
      ensures r.triggered == (old(r.triggered) || old(r.kind) != Immediate)
      ensures forall x :: x in responders ==>
                x.kind == old(x.kind) && x.status == (if x == r then status else old(x.status)) &&
                (x != r ==> x.triggered == old(x.triggered))
      ensures old(Valid()) ==> (Valid() <==> TriggerIsSafe(old(ev), r))
    {
      hide Exact, OffQueues, Lists;
      TriggerQueues(ev, r);
      r.status := status;
      if r.kind == Immediate {
        ev := Trigger(ev, r);
        SameButImmediate(old(ev), ev);
      } else {
        TriggerEventNotImmediate(r);
      }
    }

    /** Exact and OffQueues say nothing of the immediate calls. */
    lemma SameButImmediate(e: Events<EventResponder>, e': Events<EventResponder>)
      requires e' == e.(immediate := e'.immediate)
      ensures Exact(e') <==> Exact(e)
      ensures OffQueues(e') <==> OffQueues(e)
    {
      assert Pending(e', OnYield) == Pending(e, OnYield) && Pending(e', OnInterrupt) == Pending(e, OnInterrupt);
    }

    // ----- Clear, detach, attach

    lemma QueuedIfFlagged(r: EventResponder)
      requires Valid() && r in responders
      ensures Unlinkable(r, ev.onYield.queue, ev.onInterrupt.queue)
      ensures LinksHold(ev, r) <==>
              (TakenOff(r, ev.onYield.queue, ev.onInterrupt.queue) ==>
                 r.next == Ref(if r.kind == OnYield then ev.onYield.queue else ev.onInterrupt.queue, 0))
    {
      QueuedIsPending(ev, r);
      FlyingIsUnqueued();
    }

    /** Flagged and of a queued kind, but on neither list. */
    ghost predicate TakenOff(r: EventResponder, qy: seq<EventResponder>, qi: seq<EventResponder>)
      reads r`triggered, r`kind
    {
      r.triggered && r.kind in DISPATCHED && r !in qy && r !in qi
    }

    /** On a list only if flagged and of its kind; taken off only with no predecessor. */
    ghost predicate Unlinkable(r: EventResponder, qy: seq<EventResponder>, qi: seq<EventResponder>)
      reads r
    {
      && (r in qy ==> r.triggered && r.kind == OnYield)
      && (r in qi ==> r.triggered && r.kind == OnInterrupt)
      && (TakenOff(r, qy, qi) ==> r.prev == null && (r.next != null ==> r.next in responders))
    }

    lemma RemoveAbsent(q: seq<EventResponder>, r: EventResponder)
      ensures r !in q ==> Remove(q, r) == q
    {}

    /** Unlinks r, if it is flagged and its kind has a list. If it has been taken off before, the lists survive if
      and only if what it names as next is the first. */
    method UnlinkByKind(r: EventResponder, ghost qy: seq<EventResponder>, ghost qi: seq<EventResponder>)
      requires Lists(qy, qi) && r in responders
      requires Unlinkable(r, qy, qi)
      modifies onYield, onInterrupt, responders`next, responders`prev
      ensures Lists(Remove(qy, r), Remove(qi, r)) <==>
              (TakenOff(r, qy, qi) ==> old(r.next) == Ref(if r.kind == OnYield then qy else qi, 0))
      ensures forall x :: x in responders && x !in qy && x !in qi ==>
                x.next == old(x.next) && (x.prev == old(x.prev) || x.prev == null)
    {
      hide IndexOf, Drop, ResponderList.Linked, Remove, Distinct;
      onYield.LinkedIsDistinct(qy);
      onInterrupt.LinkedIsDistinct(qi);
      RemoveAbsent(qy, r);
      RemoveAbsent(qi, r);
      if r.triggered {
        if r.kind == OnYield {
          RemoveKeepsOthers(qy, r);
          if r in qy { onYield.LinkOf(r, qy); }
          onYield.Unlink(r, qy);
        } else if r.kind == OnInterrupt {
          RemoveKeepsOthers(qi, r);
          if r in qi { onInterrupt.LinkOf(r, qi); }
          onInterrupt.Unlink(r, qi);
        }
      }
    }

    lemma RemoveKeepsOthers(q: seq<EventResponder>, r: EventResponder)
      requires Distinct(q)
      ensures forall x :: x in Remove(q, r) ==> x in q
    {
      if r in q { DropDistinct(q, r); }
    }

    /** Unlinks r and lowers its flag. */
    method Withdraw(r: EventResponder, ghost qy: seq<EventResponder>, ghost qi: seq<EventResponder>,
                    ghost kind: map<EventResponder, Kind>, ghost triggered: set<EventResponder>) returns (ret: bool)
      requires Lists(qy, qi) && Flags(kind, triggered) && r in responders
      requires Unlinkable(r, qy, qi)
      modifies onYield, onInterrupt, responders`next, responders`prev, r`triggered
      ensures Flags(kind, triggered - {r}) && (ret <==> r in triggered)
      ensures Lists(Remove(qy, r), Remove(qi, r)) <==>
              (old(TakenOff(r, qy, qi)) ==> old(r.next) == Ref(if r.kind == OnYield then qy else qi, 0))
      ensures forall x :: x in responders && x !in qy && x !in qi ==>
                x.next == old(x.next) && (x.prev == old(x.prev) || x.prev == null)
    {
      hide Lists, Remove;
      RemoveAbsent(qy, r);
      RemoveAbsent(qi, r);
      ret := false;
      if r.triggered {
        UnlinkByKind(r, qy, qi);
        r.triggered := false;
        ret := true;
      }
    }

    /** clearEvent. Once the responder's dispatch has begun, the function is called all the same, and the lists
      survive if and only if no other first responder has come since. */
    method ClearEvent(r: EventResponder) returns (ret: bool)
      requires Valid() && r in responders
      modifies this`ev, onYield, onInterrupt, responders`next, responders`prev, r`triggered
      ensures ev == Clear(old(ev), r) && (ret <==> r in old(ev).triggered)
      ensures Valid() <==> LinksHold(old(ev), r)
      ensures Shows(ev) <==> LinksHold(old(ev), r)
    {
      hide Exact, OffQueues, LinksHold, Clear, Remove, Lists, Flags, TakenOff;
      KindsKnown();
      ListsKnown(ev.onYield.queue, ev.onInterrupt.queue);
      RemoveKeepsOthers(ev.onYield.queue, r);
      RemoveKeepsOthers(ev.onInterrupt.queue, r);
      ClearKeepsInv(ev, r);
      ClearEffect(ev, r);
      QueuedIfFlagged(r);
      FlyingIsUnqueued();
      ret := Withdraw(r, ev.onYield.queue, ev.onInterrupt.queue, ev.kind, ev.triggered);
      ev := Clear(ev, r);
    }

    /** Unlinks r and, when its kind has a list, marks it detached. */
    method DetachNoInterrupts(r: EventResponder, ghost qy: seq<EventResponder>, ghost qi: seq<EventResponder>,
                              ghost kind: map<EventResponder, Kind>, ghost triggered: set<EventResponder>)
      requires Lists(qy, qi) && Flags(kind, triggered) && r in responders
      requires Unlinkable(r, qy, qi)
      modifies onYield, onInterrupt, responders`next, responders`prev, r`kind
      ensures Flags(if kind[r] in DISPATCHED then kind[r := Detached] else kind, triggered)
      ensures Lists(Remove(qy, r), Remove(qi, r)) <==>
              (old(TakenOff(r, qy, qi)) ==> old(r.next) == Ref(if old(r.kind) == OnYield then qy else qi, 0))
      ensures forall x :: x in responders && x !in qy && x !in qi ==>
                x.next == old(x.next) && (x.prev == old(x.prev) || x.prev == null)
    {
      hide Lists, Remove;
      RemoveAbsent(qy, r);
      RemoveAbsent(qi, r);
      if r.kind == OnYield || r.kind == OnInterrupt {
        UnlinkByKind(r, qy, qi);
        r.kind := Detached;
      }
    }

    method Detach(r: EventResponder)
      requires Valid() && r in responders
      modifies this`ev, onYield, onInterrupt, responders`next, responders`prev, r`kind
      ensures ev == EventQueues.Detach(old(ev), r)
      ensures Valid() <==> LinksHold(old(ev), r)
      ensures Shows(ev) <==> LinksHold(old(ev), r)
    {
      hide Exact, OffQueues, LinksHold, EventQueues.Detach, Remove, Lists, Flags, TakenOff;
      KindsKnown();
      ListsKnown(ev.onYield.queue, ev.onInterrupt.queue);
      RemoveKeepsOthers(ev.onYield.queue, r);
      RemoveKeepsOthers(ev.onInterrupt.queue, r);
      DetachKeepsInv(ev, r);
      DetachEffect(ev, r);
      QueuedIfFlagged(r);
      FlyingIsUnqueued();
      DetachNoInterrupts(r, ev.onYield.queue, ev.onInterrupt.queue, ev.kind, ev.triggered);
      ev := EventQueues.Detach(ev, r);
    }

    /** attach, attachInterrupt and attachImmediate: detach, then take the new kind. */
    method Attach(r: EventResponder, k: Kind)
      requires Valid() && r in responders && k != Detached
      modifies this`ev, onYield, onInterrupt, responders`next, responders`prev, r`kind
      ensures ev == EventQueues.Attach(old(ev), r, k)
      ensures Valid() <==> AttachIsSafe(old(ev), r, k)
      ensures Shows(ev) <==> LinksHold(old(ev), r)
    {
      hide Exact, OffQueues, LinksHold, EventQueues.Attach, Remove, Lists, Flags, TakenOff;
      KindsKnown();
      ListsKnown(ev.onYield.queue, ev.onInterrupt.queue);
      RemoveKeepsOthers(ev.onYield.queue, r);
      RemoveKeepsOthers(ev.onInterrupt.queue, r);
      AttachKeepsInv(ev, r, k);
      AttachEffect(ev, r, k);
      QueuedIfFlagged(r);
      FlyingIsUnqueued();
      TakeKind(r, k, ev.onYield.queue, ev.onInterrupt.queue, ev.kind, ev.triggered);
      ev := EventQueues.Attach(ev, r, k);
    }

    method TakeKind(r: EventResponder, k: Kind, ghost qy: seq<EventResponder>, ghost qi: seq<EventResponder>,
                    ghost kind: map<EventResponder, Kind>, ghost triggered: set<EventResponder>)
      requires Lists(qy, qi) && Flags(kind, triggered) && r in responders
      requires Unlinkable(r, qy, qi)
      modifies onYield, onInterrupt, responders`next, responders`prev, r`kind
      ensures Flags(kind[r := k], triggered)
      ensures Lists(Remove(qy, r), Remove(qi, r)) <==>
              (old(TakenOff(r, qy, qi)) ==> old(r.next) == Ref(if old(r.kind) == OnYield then qy else qi, 0))
      ensures forall x :: x in responders && x !in qy && x !in qi ==>
                x.next == old(x.next) && (x.prev == old(x.prev) || x.prev == null)
    {
      hide Lists, Remove;
      DetachNoInterrupts(r, qy, qi, kind, triggered);
      r.kind := k;
    }

    // ----- Dispatch

    lemma FirstOfYield(qy: seq<EventResponder>, qi: seq<EventResponder>)
      requires Lists(qy, qi)
      ensures onYield.first == Ref(qy, 0)
    {}

    method PopInterrupt(ghost qy: seq<EventResponder>, ghost qi: seq<EventResponder>) returns (first: EventResponder?)
      requires Lists(qy, qi)
      modifies onInterrupt, responders`prev
      ensures first == Ref(qi, 0) && Lists(qy, if qi == [] then qi else qi[1..])
      ensures first != null ==> first in responders && first.prev == null && first.next == Ref(qi[1..], 0)
      ensures first != null ==> forall x :: x in qi ==> x in responders
      ensures forall x :: x in responders && x !in qi ==> x.prev == old(x.prev)
    {
      first := onInterrupt.Pop(qi);
    }

    method PopYield(ghost qy: seq<EventResponder>, ghost qi: seq<EventResponder>) returns (first: EventResponder?)
      requires Lists(qy, qi)
      modifies onYield, responders`prev
      ensures first == Ref(qy, 0) && Lists(if qy == [] then qy else qy[1..], qi)
      ensures first != null ==> first in responders && first.prev == null && first.next == Ref(qy[1..], 0)
      ensures first != null ==> forall x :: x in qy ==> x in responders
      ensures forall x :: x in responders && x !in qy ==> x.prev == old(x.prev)
    {
      first := onYield.Pop(qy);
    }

    /** One round of runFromInterrupt, first half: with interrupts off, the head is taken off the list. */
    method TakeInterrupt() returns (first: EventResponder?)
      requires Valid() && ev.onInterrupt.flying.None?
      modifies this`ev, this`inInterrupt, onInterrupt, responders`prev
      ensures Valid() && ev == TakeNext(old(ev), OnInterrupt)
      ensures first == inInterrupt == OrNull(Head(old(ev).onInterrupt.queue))
    {
      hide Exact, OffQueues, Lists, Flags;
      DispatchKeepsInv(ev, OnInterrupt);
      FlyingIsUnqueued();
      first := PopInterrupt(ev.onYield.queue, ev.onInterrupt.queue);
      inInterrupt := first;
      ev := TakeNext(ev, OnInterrupt);
    }

    /** Second half, with interrupts on: the flag goes down and the function is called. */
    method CallInterrupt()
      requires Valid() && ev.onInterrupt.flying.Some?
      modifies this`ev, this`inInterrupt, responders`triggered
      ensures Valid() && ev == CallTaken(old(ev), OnInterrupt)
    {
      hide Exact, OffQueues, Lists;
      DispatchKeepsInv(ev, OnInterrupt);
      inInterrupt.triggered := false;
      inInterrupt := null;
      ev := CallTaken(ev, OnInterrupt);
    }

    /** runFromYield up to the call: nothing happens in an interrupt, on an empty list, or inside another one. */
    method TakeYield(fromInterrupt: bool) returns (first: EventResponder?)
      requires Valid()
      modifies this`ev, this`runningFromYield, this`inYield, onYield, responders`prev
      ensures Valid()
      ensures first == if fromInterrupt || old(runningFromYield) then null else OrNull(Head(old(ev).onYield.queue))
      ensures first == null ==> ev == old(ev) && runningFromYield == old(runningFromYield)
      ensures first != null ==> old(ev).onYield.flying.None? && ev == TakeNext(old(ev), OnYield) && runningFromYield
    {
      hide Exact, OffQueues, Lists, Flags;
      first := null;
      FirstOfYield(ev.onYield.queue, ev.onInterrupt.queue);
      if onYield.first == null || fromInterrupt || runningFromYield {
        return;
      }
      DispatchKeepsInv(ev, OnYield);
      FlyingIsUnqueued();
      runningFromYield := true;
      first := PopYield(ev.onYield.queue, ev.onInterrupt.queue);
      inYield := first;
      ev := TakeNext(ev, OnYield);
    }

    method CallYield()
      requires Valid() && ev.onYield.flying.Some?
      modifies this`ev, this`inYield, responders`triggered
      ensures Valid() && ev == CallTaken(old(ev), OnYield)
    {
      hide Exact, OffQueues, Lists;
      DispatchKeepsInv(ev, OnYield);
      inYield.triggered := false;
      inYield := null;
      ev := CallTaken(ev, OnYield);
    }

    method FinishYield()
      requires Valid() && ev.onYield.flying.None?
      modifies this`runningFromYield
      ensures Valid() && !runningFromYield
    {
      runningFromYield := false;
    }

    // ----- Runs

    /** The operation concerns known responders, and attaches to a kind that there is a method for. */
    ghost predicate Known(op: Op<EventResponder>) {
      match op
      case OpTrigger(r) => r in responders
      case OpClear(r) => r in responders
      case OpDetach(r) => r in responders
      case OpAttach(r, k) => r in responders && k != Detached
      case _ => true
    }

    ghost predicate AllKnown(ops: seq<Op<EventResponder>>) {
      forall i :: 0 <= i < |ops| ==> Known(ops[i])
    }

    /** No function is being called from yield, which would keep dispatches from yield away. */
    ghost predicate NoneCalled()
      reads this
    {
      runningFromYield <==> ev.onYield.flying.Some?
    }

    /** Each operation has its method. */
    method Perform(op: Op<EventResponder>)
      requires Valid() && Known(op) && Enabled(ev, op) && Safe(ev, op)
      requires NoneCalled() || NoDispatch([op], OnYield)
      modifies this`ev, this`runningFromYield, this`inYield, this`inInterrupt, onYield, onInterrupt, responders
      ensures Valid() && ev == Step(old(ev), op)
      ensures old(NoneCalled()) ==> NoneCalled()
      ensures NoDispatch([op], OnYield) ==> runningFromYield == old(runningFromYield)
    {
      hide Frozen, Lists, Flags, Exact, OffQueues, Trigger, Clear, EventQueues.Detach, EventQueues.Attach;
      Dispatches(op);
      if op.OpTrigger? || op.OpClear? || op.OpDetach? || op.OpAttach? {
        StepKeepsFlying(ev, op, OnYield);
      }
      match op
      case OpTrigger(r) =>
        TriggerEvent(r, 0);
      case OpClear(r) =>
        var wasTriggered := ClearEvent(r);
      case OpDetach(r) =>
        Detach(r);
      case OpAttach(r, k) =>
        Attach(r, k);
      case OpTake(k) =>
        if k == OnYield {
          var first := TakeYield(false);
        } else {
          var first := TakeInterrupt();
        }
      case OpCall(k) =>
        if k == OnYield {
          CallYield();
          FinishYield();
        } else {
          CallInterrupt();
        }
    }

    lemma Dispatches(op: Op<EventResponder>)
      ensures NoDispatch([op], OnYield) <==> op != OpTake(OnYield) && op != OpCall(OnYield)
    {
      assert [op][0] == op;
    }

    /** Any legal sequence of operations: the linked queues go through its run. */
    method PerformAll(ops: seq<Op<EventResponder>>)
      requires Valid() && AllKnown(ops) && Legal(ev, ops)
      requires NoneCalled() || NoDispatch(ops, OnYield)
      modifies this`ev, this`runningFromYield, this`inYield, this`inInterrupt, onYield, onInterrupt, responders
      ensures Valid() && ev == Run(old(ev), ops)
      ensures old(NoneCalled()) ==> NoneCalled()
      ensures NoDispatch(ops, OnYield) ==> runningFromYield == old(runningFromYield)
    {
      hide Sound, Frozen, Inv, Step, Safe;
      var i := 0;
      assert ops[0..] == ops;
      while i < |ops|
        invariant i <= |ops| && Valid() && Legal(ev, ops[i..]) && Run(ev, ops[i..]) == Run(old(ev), ops)
        invariant old(NoneCalled()) ==> NoneCalled()
        invariant NoDispatch(ops, OnYield) ==> runningFromYield == old(runningFromYield)
      {
        StepKeepsInv(ev, ops[i]);
        assert ops[i..][0] == ops[i] && ops[i..][1..] == ops[i + 1..];
        if NoDispatch(ops, OnYield) { Dispatches(ops[i]); }
        Perform(ops[i]);
        i := i + 1;
      }
    }

    ghost predicate RoundKnown(round: Round<EventResponder>) {
      AllKnown(round.before) && AllKnown(round.during)
    }

    /** No dispatch from yield begins or ends in the round. */
    ghost predicate LeavesYield(round: Round<EventResponder>) {
      NoDispatch(round.before, OnYield) && NoDispatch(round.during, OnYield)
    }

    /** runFromInterrupt, while in the n-th round the operations of rounds[n] happen: the loop ends, and every
      accepted trigger that was not withdrawn has led to exactly one call, in the order of the triggers. */
    method RunFromInterrupt(rounds: seq<Round<EventResponder>>)
      requires Valid() && ev.onInterrupt.flying.None? && LegalRounds(ev, OnInterrupt, rounds)
      requires forall n :: 0 <= n < |rounds| ==> RoundKnown(rounds[n]) && (NoneCalled() || LeavesYield(rounds[n]))
      modifies this`ev, this`runningFromYield, this`inYield, this`inInterrupt, onYield, onInterrupt, responders
      ensures Valid() && ev.onInterrupt.queue == [] && ev.onInterrupt.flying.None?
      ensures Extends(old(ev).onInterrupt, ev.onInterrupt)
      ensures ev.onInterrupt.called == Keep(ev.onInterrupt.accepted, ev.onInterrupt.cancelled)
    {
      hide Sound, Frozen, Inv, LegalRound, AfterRound, RoundKnown, LeavesYield;
      var n := 0;
      assert rounds[0..] == rounds;
      while true
        invariant n <= |rounds| && Valid() && ev.onInterrupt.flying.None? && LegalRounds(ev, OnInterrupt, rounds[n..])
        invariant Extends(old(ev).onInterrupt, ev.onInterrupt)
        invariant old(NoneCalled()) ==> NoneCalled()
        decreases |rounds| - n, |ev.onInterrupt.queue|
      {
        var quiet := Round([], []);
        var round := if n < |rounds| then rounds[n] else quiet;
        if ev.onInterrupt.queue != [] {
          NextRound(rounds, n, round);
        }
        QuietIsKnown();
        var first := DispatchInterrupt(round);
        if first == null {
          break;
        }
        n := if n < |rounds| then n + 1 else n;
      }
      AllInterruptsCalled();
    }

    lemma QuietIsKnown()
      ensures RoundKnown(Round([], [])) && LeavesYield(Round([], []))
    {}

    lemma AllInterruptsCalled()
      requires Valid() && ev.onInterrupt.queue == [] && ev.onInterrupt.flying.None?
      ensures ev.onInterrupt.called == Keep(ev.onInterrupt.accepted, ev.onInterrupt.cancelled)
    {
      AllCalled(ev.onInterrupt, Pending(ev, OnInterrupt));
    }

    lemma NextRound(rounds: seq<Round<EventResponder>>, n: nat, round: Round<EventResponder>)
      requires Inv(ev) && ev.onInterrupt.flying.None? && ev.onInterrupt.queue != [] && n <= |rounds|
      requires LegalRounds(ev, OnInterrupt, rounds[n..])
      requires round == if n < |rounds| then rounds[n] else Round([], [])
      ensures LegalRound(ev, OnInterrupt, round)
      ensures var e := AfterRound(ev, OnInterrupt, round);
              && LegalRounds(e, OnInterrupt, rounds[if n < |rounds| then n + 1 else n..])
              && Extends(ev.onInterrupt, e.onInterrupt)
              && (n == |rounds| ==> e.onInterrupt.queue == ev.onInterrupt.queue[1..])
    {
      hide Inv, LegalRound, AfterRound;
      if n == |rounds| {
        QuietRound(ev, OnInterrupt);
        assert rounds[n..] == [];
      } else {
        assert rounds[n..][0] == rounds[n] && rounds[n..][1..] == rounds[n + 1..];
      }
      RoundCalls(ev, OnInterrupt, round);
    }

    /** One round of runFromInterrupt. */
    method DispatchInterrupt(round: Round<EventResponder>) returns (first: EventResponder?)
      requires Valid() && ev.onInterrupt.flying.None? && RoundKnown(round) && (NoneCalled() || LeavesYield(round))
      requires ev.onInterrupt.queue != [] ==> LegalRound(ev, OnInterrupt, round)
      modifies this`ev, this`runningFromYield, this`inYield, this`inInterrupt, onYield, onInterrupt, responders
      ensures Valid() && ev.onInterrupt.flying.None? && (old(NoneCalled()) ==> NoneCalled())
      ensures first == OrNull(Head(old(ev).onInterrupt.queue))
      ensures ev == if first == null then old(ev) else AfterRound(old(ev), OnInterrupt, round)
    {
      hide Sound, Frozen, Inv, Run, Legal, NoDispatch;
      first := TakeInterrupt();
      if first != null {
        RunKeepsFlying(ev, round.before, OnInterrupt);
        PerformAll(round.before);
        CallInterrupt();
        PerformAll(round.during);
        RunKeepsFlying(CallTaken(Run(TakeNext(old(ev), OnInterrupt), round.before), OnInterrupt), round.during,
                       OnInterrupt);
      }
    }

    /** The whole of runFromYield, while the operations of `round` happen: it calls the oldest queued responder, or
      nobody. */
    method RunFromYield(fromInterrupt: bool, round: Round<EventResponder>) returns (first: EventResponder?)
      requires Valid() && RoundKnown(round)
      requires ev.onYield.flying.None? && ev.onYield.queue != [] ==> LegalRound(ev, OnYield, round)
      modifies this`ev, this`runningFromYield, this`inYield, this`inInterrupt, onYield, onInterrupt, responders
      ensures Valid() && runningFromYield == old(runningFromYield)
      ensures first == if fromInterrupt || old(runningFromYield) then null else OrNull(Head(old(ev).onYield.queue))
      ensures first == null ==> ev == old(ev)
      ensures first != null ==> old(ev).onYield.flying.None? && old(ev).onYield.queue != []
                                && ev == AfterRound(old(ev), OnYield, round)
    {
      hide Sound, Frozen, Inv, Run, Legal, NoDispatch;
      first := TakeYield(fromInterrupt);
      if first != null {
        RunKeepsFlying(ev, round.before, OnYield);
        PerformAll(round.before);
        CallYield();
        PerformAll(round.during);
        RunKeepsFlying(CallTaken(Run(TakeNext(old(ev), OnYield), round.before), OnYield), round.during, OnYield);
        FinishYield();
      }
    }
  }
}

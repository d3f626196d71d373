/** Responders and their two queues, on values: what trigger, clear, detach, attach
  and dispatch do, and what every run of them keeps. */
module EventQueues {
  import opened Histories
  import opened Options

  datatype Kind = Detached | OnYield | Immediate | OnInterrupt

  /** One dispatch queue with its history.
    `flying` has been taken off the queue but its triggered flag is not yet cleared;
    `called` are the functions called so far; `accepted` are the triggers that were
    queued, i.e. not absorbed by an earlier one; `cancelled` are the positions in
    `accepted` that a clear or detach withdrew; `behind` came next in the list when
    `flying` was taken off, whose link still names it; `linked` says that the links
    run through the queue. */
  datatype Queue<R> = Queue(queue: seq<R>, flying: Option<R>, behind: Option<R>, linked: bool,
                            called: seq<R>, accepted: seq<R>, cancelled: set<nat>)

  datatype Events<R> = Events(kind: map<R, Kind>, triggered: set<R>,
                              onYield: Queue<R>, onInterrupt: Queue<R>, immediate: seq<R>)

  const DISPATCHED: set<Kind> := {OnYield, OnInterrupt}

  function Taken<R>(q: Queue<R>): seq<R> {
    q.called + if q.flying.Some? then [q.flying.value] else []
  }

  /** Called, then about to be called, then queued: exactly the accepted triggers that were not
    withdrawn, in the order in which they were accepted. */
  predicate Ordered<R(==)>(q: Queue<R>) {
    && Taken(q) + q.queue == Keep(q.accepted, q.cancelled)
    && forall k :: k in q.cancelled ==> k < |q.accepted|
  }

  function IndexOf<R(==)>(q: seq<R>, r: R): (i: nat)
    requires r in q
    ensures i < |q| && q[i] == r
  {
    if q[0] == r then 0 else 1 + IndexOf(q[1..], r)
  }

  function Drop<R>(q: seq<R>, i: nat): (d: seq<R>)
    requires i < |q|
    ensures |d| == |q| - 1
  {
    q[..i] + q[i + 1..]
  }

  function Enqueue<R>(q: Queue<R>, r: R): Queue<R> {
    q.(queue := q.queue + [r], accepted := q.accepted + [r])
  }

  function Cancel<R(==)>(q: Queue<R>, r: R): Queue<R>
    requires Ordered(q) && r in q.queue
  {
    var i := IndexOf(q.queue, r);
    q.(queue := Drop(q.queue, i), cancelled := q.cancelled + {KeptAt(q.accepted, q.cancelled, |Taken(q)| + i)})
  }

  function Head<R>(q: seq<R>): Option<R> {
    if q == [] then None else Some(q[0])
  }

  function Take<R>(q: Queue<R>): Queue<R>
    requires q.queue != [] && q.flying.None?
  {
    q.(queue := q.queue[1..], flying := Some(q.queue[0]), behind := Head(q.queue[1..]))
  }

  /** Unlinking the responder that has been taken off makes the one that came next the first of the list. */
  function Stale<R(==)>(q: Queue<R>): Queue<R> {
    q.(linked := q.linked && q.behind == Head(q.queue))
  }

  function Call<R>(q: Queue<R>): Queue<R>
    requires q.flying.Some?
  {
    q.(called := q.called + [q.flying.value], flying := None)
  }

  // ----- All responders

  predicate Distinct<R(==)>(q: seq<R>) {
    forall i, j :: 0 <= i < j < |q| ==> q[i] != q[j]
  }

  function QueueFor<R>(ev: Events<R>, k: Kind): Queue<R>
    requires k in DISPATCHED
  {
    if k == OnYield then ev.onYield else ev.onInterrupt
  }

  function WithQueue<R>(ev: Events<R>, k: Kind, q: Queue<R>): Events<R>
    requires k in DISPATCHED
  {
    if k == OnYield then ev.(onYield := q) else ev.(onInterrupt := q)
  }

  predicate Flying<R(==)>(ev: Events<R>, r: R) {
    ev.onYield.flying == Some(r) || ev.onInterrupt.flying == Some(r)
  }

  /** The responders that have been triggered and not called, cleared or detached since. */
  function Pending<R>(ev: Events<R>, k: Kind): set<R> {
    set r | r in ev.kind && ev.kind[r] == k && r in ev.triggered
  }

  /** The queue holds exactly the pending responders, each once, except that one about to be called may be off it. */
  predicate Holds<R(==)>(pending: set<R>, q: Queue<R>) {
    && Ordered(q) && Distinct(q.queue) && q.linked
    && (forall r :: r in q.queue ==> r in pending)
    && (forall r :: r in pending ==> r in q.queue || q.flying == Some(r))
  }

  predicate Exact<R(==)>(ev: Events<R>) {
    && Holds(Pending(ev, OnYield), ev.onYield)
    && Holds(Pending(ev, OnInterrupt), ev.onInterrupt)
  }

  /** No responder is on a queue while it is about to be called: the call is going to lower its flag. */
  predicate OffQueues<R(==)>(ev: Events<R>) {
    && (forall r :: r in ev.onYield.queue ==> !Flying(ev, r))
    && (forall r :: r in ev.onInterrupt.queue ==> !Flying(ev, r))
  }

  /** The queues are exact, and the dispatches under way will leave them so: CallKeepsExact. */
  predicate Inv<R(==)>(ev: Events<R>) {
    Exact(ev) && OffQueues(ev)
  }

  // ----- The operations

  /** triggerEvent: an immediate responder is called on the spot; any other is queued and flagged,
    unless its flag is still up from an earlier trigger. */
  function Trigger<R(==)>(ev: Events<R>, r: R): Events<R>
    requires r in ev.kind
  {
    var k := ev.kind[r];
    if k == Immediate then ev.(immediate := ev.immediate + [r])
    else if r in ev.triggered then ev
    else
      (if k in DISPATCHED then WithQueue(ev, k, Enqueue(QueueFor(ev, k), r)) else ev)
      .(triggered := ev.triggered + {r})
  }

  function TriggerAll<R(==)>(ev: Events<R>, rs: seq<R>): (t: Events<R>)
    requires forall r :: r in rs ==> r in ev.kind
    ensures t.kind == ev.kind
  {
    if rs == [] then ev else Trigger(TriggerAll(ev, rs[..|rs| - 1]), rs[|rs| - 1])
  }

  lemma {:induction false} TriggerAllConcat<R>(ev: Events<R>, a: seq<R>, b: seq<R>)
    requires (forall r :: r in a ==> r in ev.kind) && (forall r :: r in b ==> r in ev.kind)
    ensures forall r :: r in a + b ==> r in ev.kind
    ensures TriggerAll(ev, a + b) == TriggerAll(TriggerAll(ev, a), b)
    decreases |b|
  {
    if b == [] {
      assert a + b == a;
    } else {
      TriggerAllConcat(ev, a, b[..|b| - 1]);
      assert (a + b)[..|a + b| - 1] == a + b[..|b| - 1];
    }
  }

  /** clearEvent: withdraws a trigger that has not led to a call yet. */
  function Clear<R(==)>(ev: Events<R>, r: R): Events<R>
    requires Inv(ev) && r in ev.kind
  {
    Unqueue(ev, r).(triggered := ev.triggered - {r})
  }

  /** Unlinks r if it is flagged and of a queued kind, even though a dispatch may have taken it off already. */
  function Unqueue<R(==)>(ev: Events<R>, r: R): Events<R>
    requires Inv(ev) && r in ev.kind
  {
    var k := ev.kind[r];
    if r in ev.triggered && k in DISPATCHED then
      var q := QueueFor(ev, k);
      WithQueue(ev, k, if q.flying == Some(r) then Stale(q) else Cancel(q, r))
    else ev
  }

  /** detachNoInterrupts: only the queued kinds become detached, and the flag is left as it is. */
  function Detach<R(==)>(ev: Events<R>, r: R): Events<R>
    requires Inv(ev) && r in ev.kind
  {
    if ev.kind[r] in DISPATCHED then
      var ev' := Unqueue(ev, r);
      ev'.(kind := ev'.kind[r := Detached])
    else ev
  }

  function Attach<R(==)>(ev: Events<R>, r: R, k: Kind): Events<R>
    requires Inv(ev) && r in ev.kind
  {
    var ev' := Detach(ev, r);
    ev'.(kind := ev'.kind[r := k])
  }

  /** First half of a dispatch, with interrupts off: the head of the queue is taken off. */
  function TakeNext<R>(ev: Events<R>, k: Kind): Events<R>
    requires k in DISPATCHED && QueueFor(ev, k).flying.None?
  {
    var q := QueueFor(ev, k);
    if q.queue == [] then ev else WithQueue(ev, k, Take(q))
  }

  /** Second half, with interrupts on again: the flag is cleared and the function called. */
  function CallTaken<R(==)>(ev: Events<R>, k: Kind): Events<R>
    requires k in DISPATCHED && QueueFor(ev, k).flying.Some?
  {
    var q := QueueFor(ev, k);
    WithQueue(ev, k, Call(q)).(triggered := ev.triggered - {q.flying.value})
  }

  // ----- One queue

  lemma EnqueueHolds<R>(pending: set<R>, q: Queue<R>, r: R)
    requires Holds(pending, q) && r !in pending
    ensures Holds(pending + {r}, Enqueue(q, r))
  {
    KeepAppend(q.accepted, q.cancelled, r);
    assert Taken(q) + (q.queue + [r]) == Taken(q) + q.queue + [r];
  }

  lemma CancelOrdered<R>(q: Queue<R>, r: R)
    requires Ordered(q) && r in q.queue
    ensures Ordered(Cancel(q, r))
  {
    hide Keep, KeptAt, IndexOf;
    var i := IndexOf(q.queue, r);
    KeepWithdraw(q.accepted, q.cancelled, |Taken(q)| + i);
    DropBehind(Taken(q), q.queue, i);
  }

  lemma DropBehind<R>(front: seq<R>, q: seq<R>, i: nat)
    requires i < |q|
    ensures var n := |front| + i; (front + q)[..n] + (front + q)[n + 1..] == front + Drop(q, i)
  {}

  lemma DropDistinct<R>(q: seq<R>, r: R)
    requires Distinct(q) && r in q
    ensures Distinct(Drop(q, IndexOf(q, r)))
    ensures r !in Drop(q, IndexOf(q, r))
    ensures forall x :: x in q && x != r ==> x in Drop(q, IndexOf(q, r))
    ensures forall x :: x in Drop(q, IndexOf(q, r)) ==> x in q
  {
    var i := IndexOf(q, r);
    assert q == q[..i] + [r] + q[i + 1..];
  }

  function Remove<R(==)>(q: seq<R>, r: R): seq<R> {
    if r in q then Drop(q, IndexOf(q, r)) else q
  }

  lemma CancelHolds<R>(pending: set<R>, q: Queue<R>, r: R)
    requires Holds(pending, q) && r in q.queue
    ensures Holds(pending - {r}, Cancel(q, r))
  {
    CancelOrdered(q, r);
    DropDistinct(q.queue, r);
  }

  lemma TakeHolds<R>(pending: set<R>, q: Queue<R>)
    requires Holds(pending, q) && q.queue != [] && q.flying.None?
    ensures Holds(pending, Take(q))
  {
    assert q.queue == [q.queue[0]] + q.queue[1..];
    assert Taken(Take(q)) + Take(q).queue == Taken(q) + q.queue;
  }

  lemma CallHolds<R>(pending: set<R>, q: Queue<R>)
    requires Holds(pending, q) && q.flying.Some? && q.flying.value !in q.queue
    ensures Holds(pending - {q.flying.value}, Call(q))
  {
    assert Taken(Call(q)) == Taken(q);
  }

  /** A responder that is off the queue and not pending may become pending while it is about to be called. */
  lemma FlyingHolds<R>(pending: set<R>, q: Queue<R>, r: R)
    requires Holds(pending, q) && q.flying == Some(r)
    ensures Holds(pending + {r}, q)
  {}

  lemma AllCalled<R>(q: Queue<R>, pending: set<R>)
    requires Holds(pending, q) && q.queue == [] && q.flying.None?
    ensures q.called == Keep(q.accepted, q.cancelled)
  {
    assert Taken(q) + q.queue == q.called;
  }

  // ----- Every operation keeps the queues exact

  function Other(k: Kind): Kind {
    if k == OnYield then OnInterrupt else OnYield
  }

  /** A step that changes queue k and the pending set of k only. */
  lemma ExactFrom<R>(ev: Events<R>, ev': Events<R>, k: Kind)
    requires Exact(ev) && k in DISPATCHED
    requires QueueFor(ev', Other(k)) == QueueFor(ev, Other(k))
    requires Pending(ev', Other(k)) == Pending(ev, Other(k))
    requires Holds(Pending(ev', k), QueueFor(ev', k))
    ensures Exact(ev')
  {}

  lemma NotPending<R>(ev: Events<R>, r: R, k: Kind)
    requires r !in ev.triggered
    ensures r !in Pending(ev, k)
  {}

  lemma {:induction false} QueuedTriggerKeepsExact<R>(ev: Events<R>, r: R)
    requires Exact(ev) && r in ev.kind && r !in ev.triggered && ev.kind[r] in DISPATCHED
    ensures Exact(Trigger(ev, r))
  {
    hide Holds, Enqueue;
    var k, ev' := ev.kind[r], Trigger(ev, r);
    NotPending(ev, r, k);
    EnqueueHolds(Pending(ev, k), QueueFor(ev, k), r);
    assert Pending(ev', k) == Pending(ev, k) + {r};
    assert Pending(ev', Other(k)) == Pending(ev, Other(k));
    ExactFrom(ev, ev', k);
  }

  /** A trigger always leaves the queues exact. */
  lemma TriggerKeepsExact<R>(ev: Events<R>, r: R)
    requires Exact(ev) && r in ev.kind
    ensures Exact(Trigger(ev, r))
  {
    hide Holds;
    var k, ev' := ev.kind[r], Trigger(ev, r);
    if k != Immediate && r !in ev.triggered {
      if k in DISPATCHED {
        QueuedTriggerKeepsExact(ev, r);
      } else {
        assert Pending(ev', OnYield) == Pending(ev, OnYield);
        assert Pending(ev', OnInterrupt) == Pending(ev, OnInterrupt);
      }
    }
  }

  /** It does not queue a responder that is about to be called, as it would if a clear has lowered the flag. */
  predicate TriggerIsSafe<R(==)>(ev: Events<R>, r: R)
    requires r in ev.kind
  {
    Flying(ev, r) && r !in ev.triggered ==> ev.kind[r] !in DISPATCHED
  }

  lemma TriggerKeepsInv<R>(ev: Events<R>, r: R)
    requires Inv(ev) && r in ev.kind
    ensures Inv(Trigger(ev, r)) <==> TriggerIsSafe(ev, r)
  {
    hide Exact;
    TriggerKeepsExact(ev, r);
    TriggerKeepsDispatches(ev, r);
    TriggerQueues(ev, r);
    var t := Trigger(ev, r);
    assert r !in ev.triggered && ev.kind[r] in DISPATCHED ==> r in t.onYield.queue || r in t.onInterrupt.queue;
    hide Trigger;
    assert forall x :: x in t.onYield.queue ==> x in ev.onYield.queue || x == r;
    assert forall x :: x in t.onInterrupt.queue ==> x in ev.onInterrupt.queue || x == r;
  }

  lemma TriggerQueues<R>(ev: Events<R>, r: R)
    requires r in ev.kind
    ensures var t, more := Trigger(ev, r), if r in ev.triggered then [] else [r];
            && t.onYield.queue == ev.onYield.queue + (if ev.kind[r] == OnYield then more else [])
            && t.onInterrupt.queue == ev.onInterrupt.queue + (if ev.kind[r] == OnInterrupt then more else [])
  {}

  lemma TriggerKeepsDispatches<R>(ev: Events<R>, r: R)
    requires r in ev.kind
    ensures var t := Trigger(ev, r);
            && t.onYield.flying == ev.onYield.flying && t.onInterrupt.flying == ev.onInterrupt.flying
            && t.onYield.behind == ev.onYield.behind && t.onInterrupt.behind == ev.onInterrupt.behind
            && (ev.kind[r] != Immediate ==> t.immediate == ev.immediate)
  {}

  /** ev' treats every responder but r as ev does, and r is not pending in it. */
  predicate SameBut<R(==)>(ev: Events<R>, ev': Events<R>, r: R) {
    && ev'.kind.Keys == ev.kind.Keys
    && (forall x :: x in ev.kind && x != r ==> ev'.kind[x] == ev.kind[x])
    && (forall x :: x in ev.kind && x != r ==> (x in ev'.triggered <==> x in ev.triggered))
    && (r in ev'.kind && r in ev'.triggered ==> ev'.kind[r] !in DISPATCHED)
  }

  lemma PendingBut<R>(ev: Events<R>, ev': Events<R>, r: R, k: Kind)
    requires SameBut(ev, ev', r) && k in DISPATCHED
    ensures Pending(ev', k) == Pending(ev, k) - {r}
  {}

  /** If unlinking r means unlinking it a second time, what came behind it is still the first of the list. */
  predicate LinksHold<R(==)>(ev: Events<R>, r: R)
    requires r in ev.kind
  {
    r in ev.triggered && ev.kind[r] in DISPATCHED ==>
      var q := QueueFor(ev, ev.kind[r]);
      q.flying == Some(r) ==> q.behind == Head(q.queue)
  }

  lemma UnqueueHolds<R>(ev: Events<R>, r: R, k: Kind)
    requires Inv(ev) && r in ev.kind && LinksHold(ev, r) && k in DISPATCHED
    ensures Holds(Pending(ev, k) - {r}, QueueFor(Unqueue(ev, r), k))
  {
    var q := QueueFor(ev, k);
    if r in ev.triggered && ev.kind[r] == k {
      assert r in Pending(ev, k);
      if q.flying == Some(r) {
        assert r !in q.queue && Stale(q) == q;
      } else {
        CancelHolds(Pending(ev, k), q, r);
      }
    } else {
      assert r !in Pending(ev, k);
      assert Pending(ev, k) - {r} == Pending(ev, k);
      assert QueueFor(Unqueue(ev, r), k) == q;
    }
  }

  /** d has the queues and dispatches of ev without r; its links run through them exactly if LinksHold. */
  predicate QueuesWithout<R(==)>(ev: Events<R>, d: Events<R>, r: R)
    requires r in ev.kind
  {
    && d.onYield.queue == Remove(ev.onYield.queue, r) && d.onInterrupt.queue == Remove(ev.onInterrupt.queue, r)
    && d.onYield.flying == ev.onYield.flying && d.onInterrupt.flying == ev.onInterrupt.flying
    && d.onYield.behind == ev.onYield.behind && d.onInterrupt.behind == ev.onInterrupt.behind
    && (d.onYield.linked && d.onInterrupt.linked <==> LinksHold(ev, r))
  }

  lemma UnqueueEffect<R>(ev: Events<R>, r: R)
    requires Inv(ev) && r in ev.kind
    ensures var u := Unqueue(ev, r);
            && u.kind == ev.kind && u.triggered == ev.triggered && u.immediate == ev.immediate
            && QueuesWithout(ev, u, r)
  {
    QueuedIsPending(ev, r);
  }

  lemma QueuedIsPending<R>(ev: Events<R>, r: R)
    requires Inv(ev) && r in ev.kind
    ensures r in ev.onYield.queue <==> r in ev.triggered && ev.kind[r] == OnYield && ev.onYield.flying != Some(r)
    ensures r in ev.onInterrupt.queue <==>
            r in ev.triggered && ev.kind[r] == OnInterrupt && ev.onInterrupt.flying != Some(r)
  {
    assert r in ev.onYield.queue ==> r in Pending(ev, OnYield);
    assert r in ev.onInterrupt.queue ==> r in Pending(ev, OnInterrupt);
    assert r in ev.triggered && ev.kind[r] == OnYield ==> r in Pending(ev, OnYield);
    assert r in ev.triggered && ev.kind[r] == OnInterrupt ==> r in Pending(ev, OnInterrupt);
  }

  lemma ClearEffect<R>(ev: Events<R>, r: R)
    requires Inv(ev) && r in ev.kind
    ensures var d := Clear(ev, r);
            d.triggered == ev.triggered - {r} && d.kind == ev.kind && QueuesWithout(ev, d, r)
  {
    hide Unqueue;
    UnqueueEffect(ev, r);
  }

  lemma DetachEffect<R>(ev: Events<R>, r: R)
    requires Inv(ev) && r in ev.kind
    ensures var d := Detach(ev, r);
            && d.triggered == ev.triggered
            && d.kind == (if ev.kind[r] in DISPATCHED then ev.kind[r := Detached] else ev.kind)
            && QueuesWithout(ev, d, r)
  {
    hide Unqueue, Inv;
    UnqueueEffect(ev, r);
    QueuedIsPending(ev, r);
    InvIsLinked(ev);
  }

  lemma InvIsLinked<R>(ev: Events<R>)
    requires Inv(ev)
    ensures ev.onYield.linked && ev.onInterrupt.linked
  {}

  lemma AttachEffect<R>(ev: Events<R>, r: R, k: Kind)
    requires Inv(ev) && r in ev.kind
    ensures var d := Attach(ev, r, k);
            d.triggered == ev.triggered && d.kind == ev.kind[r := k] && QueuesWithout(ev, d, r)
  {
    hide Detach;
    DetachEffect(ev, r);
  }

  /** Once r is off its queue, its flag and its kind may change without upsetting the queues,
    as long as r does not end up flagged on a queue. */
  lemma UnqueuedInv<R>(ev: Events<R>, r: R, ev': Events<R>)
    requires Inv(ev) && r in ev.kind && LinksHold(ev, r)
    requires var q := Unqueue(ev, r); ev'.onYield == q.onYield && ev'.onInterrupt == q.onInterrupt
    requires SameBut(ev, ev', r)
    ensures Inv(ev')
  {
    hide Unqueue, Holds;
    UnqueueHolds(ev, r, OnYield);
    UnqueueHolds(ev, r, OnInterrupt);
    PendingBut(ev, ev', r, OnYield);
    PendingBut(ev, ev', r, OnInterrupt);
    WithoutOffQueues(ev, r, ev');
  }

  lemma WithoutOffQueues<R>(ev: Events<R>, r: R, ev': Events<R>)
    requires Inv(ev) && r in ev.kind
    requires var q := Unqueue(ev, r); ev'.onYield == q.onYield && ev'.onInterrupt == q.onInterrupt
    ensures OffQueues(ev')
  {
    hide Unqueue, Remove;
    UnqueueEffect(ev, r);
    RemoveKeeps(ev.onYield.queue, r);
    RemoveKeeps(ev.onInterrupt.queue, r);
  }

  lemma RemoveKeeps<R>(q: seq<R>, r: R)
    requires Distinct(q)
    ensures r !in Remove(q, r) && forall x :: x in Remove(q, r) ==> x in q
  {
    if r in q { DropDistinct(q, r); }
  }

  lemma UnlinkedBreaks<R>(ev: Events<R>)
    ensures !(ev.onYield.linked && ev.onInterrupt.linked) ==> !Inv(ev)
  {}

  /** Clearing keeps the queues exact if and only if the links hold. */
  lemma ClearKeepsInv<R>(ev: Events<R>, r: R)
    requires Inv(ev) && r in ev.kind
    ensures Inv(Clear(ev, r)) <==> LinksHold(ev, r)
  {
    hide Inv;
    ClearEffect(ev, r);
    UnlinkedBreaks(Clear(ev, r));
    if LinksHold(ev, r) { UnqueuedInv(ev, r, Clear(ev, r)); }
  }

  lemma DetachKeepsInv<R>(ev: Events<R>, r: R)
    requires Inv(ev) && r in ev.kind
    ensures Inv(Detach(ev, r)) <==> LinksHold(ev, r)
  {
    hide Inv;
    DetachEffect(ev, r);
    UnlinkedBreaks(Detach(ev, r));
    if LinksHold(ev, r) { UnqueuedInv(ev, r, Detach(ev, r)); }
  }

  /** The links hold, and a flag left up does not stand for a trigger that is on no queue: it is down, or the new
    kind has no queue, or the responder is about to be called from that queue. */
  predicate AttachIsSafe<R(==)>(ev: Events<R>, r: R, k: Kind)
    requires r in ev.kind
  {
    LinksHold(ev, r) && (k in DISPATCHED && r in ev.triggered ==> QueueFor(ev, k).flying == Some(r))
  }

  lemma AttachKeepsInv<R>(ev: Events<R>, r: R, k: Kind)
    requires Inv(ev) && r in ev.kind
    ensures Inv(Attach(ev, r, k)) <==> AttachIsSafe(ev, r, k)
  {
    hide Inv;
    AttachEffect(ev, r, k);
    UnlinkedBreaks(Attach(ev, r, k));
    if LinksHold(ev, r) {
      if k in DISPATCHED && r in ev.triggered {
        AttachFlagged(ev, r, k);
      } else {
        UnqueuedInv(ev, r, Attach(ev, r, k));
      }
    }
  }

  lemma AttachFlagged<R>(ev: Events<R>, r: R, k: Kind)
    requires Inv(ev) && r in ev.kind && LinksHold(ev, r) && k in DISPATCHED && r in ev.triggered
    ensures Inv(Attach(ev, r, k)) <==> QueueFor(ev, k).flying == Some(r)
  {
    var d, ev' := Detach(ev, r), Attach(ev, r, k);
    hide Inv;
    DetachKeepsInv(ev, r);
    DetachEffect(ev, r);
    AttachEffect(ev, r, k);
    RemoveRemoves(ev, r);
    if QueueFor(ev, k).flying == Some(r) {
      AttachedWhileFlying(ev, r, k);
    } else {
      UnqueuedIsNotPending(ev', r, k);
    }
  }

  lemma AttachedWhileFlying<R>(ev: Events<R>, r: R, k: Kind)
    requires Inv(ev) && r in ev.kind && LinksHold(ev, r) && k in DISPATCHED && r in ev.triggered
    requires QueueFor(ev, k).flying == Some(r)
    ensures Inv(Attach(ev, r, k))
  {
    hide Holds, Inv, OffQueues, Pending, Attach, Unqueue, LinksHold;
    var ev' := Attach(ev, r, k);
    AttachEffect(ev, r, k);
    AttachQueues(ev, r, k);
    UnqueueHolds(ev, r, k);
    UnqueueHolds(ev, r, Other(k));
    WithoutOffQueues(ev, r, ev');
    FlyingHolds(Pending(ev, k) - {r}, QueueFor(ev', k), r);
    AttachPending(ev, ev', r, k);
    BothHold(ev', k);
  }

  lemma AttachQueues<R>(ev: Events<R>, r: R, k: Kind)
    requires Inv(ev) && r in ev.kind
    ensures Attach(ev, r, k).onYield == Unqueue(ev, r).onYield
    ensures Attach(ev, r, k).onInterrupt == Unqueue(ev, r).onInterrupt
  {}

  lemma AttachPending<R>(ev: Events<R>, ev': Events<R>, r: R, k: Kind)
    requires r in ev.kind && r in ev.triggered && ev'.triggered == ev.triggered && ev'.kind == ev.kind[r := k]
    requires k in DISPATCHED
    ensures Pending(ev', k) == Pending(ev, k) - {r} + {r}
    ensures Pending(ev', Other(k)) == Pending(ev, Other(k)) - {r}
  {}

  lemma BothHold<R>(ev: Events<R>, k: Kind)
    requires k in DISPATCHED && OffQueues(ev)
    requires Holds(Pending(ev, k), QueueFor(ev, k)) && Holds(Pending(ev, Other(k)), QueueFor(ev, Other(k)))
    ensures Inv(ev)
  {}

  lemma RemoveRemoves<R>(ev: Events<R>, r: R)
    requires Inv(ev)
    ensures r !in Remove(ev.onYield.queue, r) && r !in Remove(ev.onInterrupt.queue, r)
  {
    RemoveKeeps(ev.onYield.queue, r);
    RemoveKeeps(ev.onInterrupt.queue, r);
  }

  lemma UnqueuedIsNotPending<R>(ev: Events<R>, r: R, k: Kind)
    requires k in DISPATCHED && r in ev.kind && ev.kind[r] == k && QueueFor(ev, k).flying != Some(r)
    requires r !in ev.onYield.queue && r !in ev.onInterrupt.queue && r in ev.triggered
    ensures !Inv(ev)
  {
    assert r in Pending(ev, k);
  }

  lemma DispatchKeepsInv<R>(ev: Events<R>, k: Kind)
    requires Inv(ev) && k in DISPATCHED
    ensures QueueFor(ev, k).flying.None? ==> Inv(TakeNext(ev, k))
    ensures QueueFor(ev, k).flying.Some? ==> Inv(CallTaken(ev, k))
  {
    hide Inv;
    if QueueFor(ev, k).flying.Some? {
      CallKeepsInv(ev, k);
    } else if QueueFor(ev, k).queue != [] {
      TakeKeepsInv(ev, k);
    }
  }

  lemma TakeKeepsInv<R>(ev: Events<R>, k: Kind)
    requires Inv(ev) && k in DISPATCHED && QueueFor(ev, k).flying.None? && QueueFor(ev, k).queue != []
    ensures Inv(TakeNext(ev, k))
  {
    TakeKeepsExact(ev, k);
    TakenOffQueues(ev, k);
  }

  lemma TakeKeepsExact<R>(ev: Events<R>, k: Kind)
    requires Exact(ev) && k in DISPATCHED && QueueFor(ev, k).flying.None? && QueueFor(ev, k).queue != []
    ensures Exact(TakeNext(ev, k))
  {
    hide Holds, Take;
    var ev' := TakeNext(ev, k);
    TakeHolds(Pending(ev, k), QueueFor(ev, k));
    assert Pending(ev', k) == Pending(ev, k);
    assert Pending(ev', Other(k)) == Pending(ev, Other(k));
    ExactFrom(ev, ev', k);
  }

  lemma TakenOffQueues<R>(ev: Events<R>, k: Kind)
    requires Inv(ev) && k in DISPATCHED && QueueFor(ev, k).flying.None? && QueueFor(ev, k).queue != []
    ensures OffQueues(TakeNext(ev, k))
  {
    var q := QueueFor(ev, k).queue;
    assert q[0] in Pending(ev, k) && q[0] !in Pending(ev, Other(k));
    assert q[0] !in q[1..];
  }

  lemma CallKeepsInv<R>(ev: Events<R>, k: Kind)
    requires Inv(ev) && k in DISPATCHED && QueueFor(ev, k).flying.Some?
    ensures Inv(CallTaken(ev, k))
  {
    hide Exact;
    CallKeepsExact(ev, k);
  }

  /** The call leaves the queues exact if and only if the responder called is on neither. */
  lemma CallKeepsExact<R>(ev: Events<R>, k: Kind)
    requires Exact(ev) && k in DISPATCHED && QueueFor(ev, k).flying.Some?
    ensures var r := QueueFor(ev, k).flying.value;
            Exact(CallTaken(ev, k)) <==> r !in ev.onYield.queue && r !in ev.onInterrupt.queue
  {
    var ev', r := CallTaken(ev, k), QueueFor(ev, k).flying.value;
    hide Exact, Call;
    if r !in ev.onYield.queue && r !in ev.onInterrupt.queue {
      CallOffQueues(ev, k);
    } else {
      LoweredBreaks(ev', r);
    }
  }

  lemma CallOffQueues<R>(ev: Events<R>, k: Kind)
    requires Exact(ev) && k in DISPATCHED && QueueFor(ev, k).flying.Some?
    requires var r := QueueFor(ev, k).flying.value; r !in ev.onYield.queue && r !in ev.onInterrupt.queue
    ensures Exact(CallTaken(ev, k))
  {
    hide Holds, Call;
    var ev', r, o := CallTaken(ev, k), QueueFor(ev, k).flying.value, Other(k);
    assert Pending(ev', k) == Pending(ev, k) - {r} && Pending(ev', o) == Pending(ev, o) - {r};
    CallHolds(Pending(ev, k), QueueFor(ev, k));
    LoweredHolds(Pending(ev, o), QueueFor(ev, o), r);
  }

  lemma LoweredBreaks<R>(ev: Events<R>, r: R)
    requires r !in ev.triggered && (r in ev.onYield.queue || r in ev.onInterrupt.queue)
    ensures !Exact(ev)
  {
    NotPending(ev, r, OnYield);
    NotPending(ev, r, OnInterrupt);
  }

  lemma LoweredHolds<R>(pending: set<R>, q: Queue<R>, r: R)
    requires Holds(pending, q) && r !in q.queue
    ensures Holds(pending - {r}, q)
  {}

  // ----- Whole runs

  datatype Op<R> =
    | OpTrigger(r: R)
    | OpClear(r: R)
    | OpDetach(r: R)
    | OpAttach(r: R, k: Kind)
    | OpTake(k: Kind)
    | OpCall(k: Kind)

  /** What can happen: operations on known responders, and the two halves of a dispatch in turn. */
  predicate Enabled<R(==)>(ev: Events<R>, op: Op<R>) {
    match op
    case OpTrigger(r) => r in ev.kind
    case OpClear(r) => r in ev.kind
    case OpDetach(r) => r in ev.kind
    case OpAttach(r, k) => r in ev.kind
    case OpTake(k) => k in DISPATCHED && QueueFor(ev, k).flying.None?
    case OpCall(k) => k in DISPATCHED && QueueFor(ev, k).flying.Some?
  }

  /** What keeps the queues exact. */
  predicate Safe<R(==)>(ev: Events<R>, op: Op<R>)
    requires Enabled(ev, op)
  {
    match op
    case OpTrigger(r) => TriggerIsSafe(ev, r)
    case OpClear(r) => LinksHold(ev, r)
    case OpDetach(r) => LinksHold(ev, r)
    case OpAttach(r, k) => AttachIsSafe(ev, r, k)
    case _ => true
  }

  function Step<R(==)>(ev: Events<R>, op: Op<R>): Events<R>
    requires Inv(ev) && Enabled(ev, op)
  {
    match op
    case OpTrigger(r) => Trigger(ev, r)
    case OpClear(r) => Clear(ev, r)
    case OpDetach(r) => Detach(ev, r)
    case OpAttach(r, k) => Attach(ev, r, k)
    case OpTake(k) => TakeNext(ev, k)
    case OpCall(k) => CallTaken(ev, k)
  }

  lemma StepKeepsInv<R>(ev: Events<R>, op: Op<R>)
    requires Inv(ev) && Enabled(ev, op)
    ensures Inv(Step(ev, op)) <==> Safe(ev, op)
  {
    match op
    case OpTrigger(r) => TriggerKeepsInv(ev, r);
    case OpClear(r) => ClearKeepsInv(ev, r);
    case OpDetach(r) => DetachKeepsInv(ev, r);
    case OpAttach(r, k) => AttachKeepsInv(ev, r, k);
    case OpTake(k) => DispatchKeepsInv(ev, k);
    case OpCall(k) => DispatchKeepsInv(ev, k);
  }

  /** Every step can happen and is safe, which by StepKeepsInv are exactly the runs along which the queues are
    exact throughout. */
  predicate Legal<R(==)>(ev: Events<R>, ops: seq<Op<R>>)
    requires Inv(ev)
    decreases |ops|
  {
    ops == [] ||
    (Enabled(ev, ops[0]) && Safe(ev, ops[0]) && (StepKeepsInv(ev, ops[0]); Legal(Step(ev, ops[0]), ops[1..])))
  }

  function Run<R(==)>(ev: Events<R>, ops: seq<Op<R>>): (ev': Events<R>)
    requires Inv(ev) && Legal(ev, ops)
    ensures Inv(ev')
    decreases |ops|
  {
    if ops == [] then ev
    else
      StepKeepsInv(ev, ops[0]);
      Run(Step(ev, ops[0]), ops[1..])
  }

  predicate Extends<R(==)>(q: Queue<R>, q': Queue<R>) {
    q.called <= q'.called && q.accepted <= q'.accepted && q.cancelled <= q'.cancelled
  }

  /** In every run from an exact state the queues stay exact, no call or accepted trigger is ever undone, and
    the calls made are a prefix of the accepted triggers that were not withdrawn. */
  lemma RunDispatchesInOrder<R>(ev: Events<R>, ops: seq<Op<R>>)
    requires Inv(ev) && Legal(ev, ops)
    ensures var ev' := Run(ev, ops);
            && Inv(ev')
            && forall k :: k in DISPATCHED ==>
                 var q' := QueueFor(ev', k);
                 && Extends(QueueFor(ev, k), q')
                 && q'.called <= Keep(q'.accepted, q'.cancelled)
                 && q'.called + (if q'.flying.Some? then [q'.flying.value] else []) + q'.queue
                    == Keep(q'.accepted, q'.cancelled)
  {
    hide Inv, Safe, Step, Keep, Extends;
    RunExtends(ev, ops);
    InOrder(Run(ev, ops), OnYield);
    InOrder(Run(ev, ops), OnInterrupt);
  }

  lemma InOrder<R>(ev: Events<R>, k: Kind)
    requires Inv(ev) && k in DISPATCHED
    ensures var q := QueueFor(ev, k);
            && q.called <= Keep(q.accepted, q.cancelled)
            && q.called + (if q.flying.Some? then [q.flying.value] else []) + q.queue == Keep(q.accepted, q.cancelled)
  {
    var q := QueueFor(ev, k);
    assert Holds(Pending(ev, k), q);
    assert Taken(q) + q.queue == Keep(q.accepted, q.cancelled);
  }

  lemma {:induction false} RunExtends<R>(ev: Events<R>, ops: seq<Op<R>>)
    requires Inv(ev) && Legal(ev, ops)
    ensures Extends(ev.onYield, Run(ev, ops).onYield) && Extends(ev.onInterrupt, Run(ev, ops).onInterrupt)
    decreases |ops|
  {
    hide Inv, Safe, Step;
    if ops != [] {
      StepKeepsInv(ev, ops[0]);
      StepExtends(ev, ops[0]);
      RunExtends(Step(ev, ops[0]), ops[1..]);
    }
  }

  lemma StepExtends<R>(ev: Events<R>, op: Op<R>)
    requires Inv(ev) && Enabled(ev, op)
    ensures Extends(ev.onYield, Step(ev, op).onYield) && Extends(ev.onInterrupt, Step(ev, op).onInterrupt)
  {
    hide Inv, Unqueue;
    match op
    case OpClear(r) => UnqueueExtends(ev, r);
    case OpDetach(r) => UnqueueExtends(ev, r);
    case OpAttach(r, k) => UnqueueExtends(ev, r);
    case _ =>
  }

  lemma UnqueueExtends<R>(ev: Events<R>, r: R)
    requires Inv(ev) && r in ev.kind
    ensures var u := Unqueue(ev, r); Extends(ev.onYield, u.onYield) && Extends(ev.onInterrupt, u.onInterrupt)
  {}

  /** Detaching silences a responder: a later trigger queues and calls nothing. It does so if and only if the
    responder was not immediate, because detach leaves that kind in place. */
  lemma DetachSilences<R>(ev: Events<R>, r: R)
    requires Inv(ev) && r in ev.kind
    ensures var d := Detach(ev, r);
            && r in d.kind
            && r !in d.onYield.queue && r !in d.onInterrupt.queue
            && (Trigger(d, r) == d.(triggered := d.triggered + {r}) <==> ev.kind[r] != Immediate)
  {
    hide Inv, Unqueue;
    DetachedIsUnqueued(ev, r);
    DetachEffect(ev, r);
    var d := Detach(ev, r);
    if ev.kind[r] == Immediate {
      assert Trigger(d, r).immediate != d.immediate;
    } else if r in d.triggered {
      assert d.triggered + {r} == d.triggered;
    }
  }

  lemma DetachedIsUnqueued<R>(ev: Events<R>, r: R)
    requires Inv(ev) && r in ev.kind
    ensures r !in Detach(ev, r).onYield.queue && r !in Detach(ev, r).onInterrupt.queue
  {
    hide Inv, Detach;
    DetachEffect(ev, r);
    RemoveRemoves(ev, r);
  }

  // ----- Immediate responders

  /** How an operation changes the kinds: attach sets one, and detach makes a queued kind detached. */
  function KindsAfter<R(==)>(kind: map<R, Kind>, op: Op<R>): map<R, Kind> {
    match op
    case OpAttach(r, k) => kind[r := k]
    case OpDetach(r) => if r in kind && kind[r] in DISPATCHED then kind[r := Detached] else kind
    case _ => kind
  }

  /** Whom one operation calls immediately. */
  function ImmediateTrigger<R(==)>(kind: map<R, Kind>, op: Op<R>): seq<R> {
    if op.OpTrigger? && op.r in kind && kind[op.r] == Immediate then [op.r] else []
  }

  /** The responders that are immediate when they are triggered, in the order of the triggers. */
  function ImmediateTriggers<R(==)>(kind: map<R, Kind>, ops: seq<Op<R>>): seq<R>
    decreases |ops|
  {
    if ops == [] then []
    else ImmediateTrigger(kind, ops[0]) + ImmediateTriggers(KindsAfter(kind, ops[0]), ops[1..])
  }

  /** A trigger calls an immediate responder exactly once, and nothing else calls one. */
  lemma StepCallsImmediate<R>(ev: Events<R>, op: Op<R>)
    requires Inv(ev) && Enabled(ev, op)
    ensures Step(ev, op).kind == KindsAfter(ev.kind, op)
    ensures Step(ev, op).immediate == ev.immediate + ImmediateTrigger(ev.kind, op)
  {
    hide Inv, Unqueue;
    match op
    case OpClear(r) => UnqueueEffect(ev, r);
    case OpDetach(r) => UnqueueEffect(ev, r);
    case OpAttach(r, k) => UnqueueEffect(ev, r);
    case _ =>
  }

  /** In every run, each trigger of a responder that is immediate at that moment calls it exactly once, there and
    then, and no other step calls one. */
  lemma {:induction false} RunCallsImmediates<R>(ev: Events<R>, ops: seq<Op<R>>)
    requires Inv(ev) && Legal(ev, ops)
    ensures Run(ev, ops).immediate == ev.immediate + ImmediateTriggers(ev.kind, ops)
    decreases |ops|
  {
    hide Inv, Safe, Step, KindsAfter, ImmediateTrigger;
    if ops != [] {
      var first, rest := ImmediateTrigger(ev.kind, ops[0]), ImmediateTriggers(KindsAfter(ev.kind, ops[0]), ops[1..]);
      StepKeepsInv(ev, ops[0]);
      StepCallsImmediate(ev, ops[0]);
      RunCallsImmediates(Step(ev, ops[0]), ops[1..]);
      Associative(ev.immediate, first, rest);
    }
  }

  lemma Associative<R>(a: seq<R>, b: seq<R>, c: seq<R>)
    ensures a + b + c == a + (b + c)
  {}

  // ----- One dispatch, with other operations in between

  /** None of the operations begins or ends a dispatch from queue k. */
  predicate NoDispatch<R(==)>(ops: seq<Op<R>>, k: Kind) {
    forall i :: 0 <= i < |ops| && (ops[i].OpTake? || ops[i].OpCall?) ==> ops[i].k != k
  }

  lemma {:induction false} RunKeepsFlying<R>(ev: Events<R>, ops: seq<Op<R>>, k: Kind)
    requires Inv(ev) && Legal(ev, ops) && NoDispatch(ops, k) && k in DISPATCHED
    ensures QueueFor(Run(ev, ops), k).flying == QueueFor(ev, k).flying
    decreases |ops|
  {
    hide Inv, Safe, Step;
    if ops != [] {
      StepKeepsInv(ev, ops[0]);
      StepKeepsFlying(ev, ops[0], k);
      RunKeepsFlying(Step(ev, ops[0]), ops[1..], k);
    }
  }

  lemma StepKeepsFlying<R>(ev: Events<R>, op: Op<R>, k: Kind)
    requires Inv(ev) && Enabled(ev, op) && k in DISPATCHED && (op.OpTake? || op.OpCall? ==> op.k != k)
    ensures QueueFor(Step(ev, op), k).flying == QueueFor(ev, k).flying
  {
    hide Inv, Trigger, Clear, Detach, Attach;
    match op
    case OpTrigger(r) => TriggerKeepsDispatches(ev, r);
    case OpClear(r) => ClearEffect(ev, r);
    case OpDetach(r) => DetachEffect(ev, r);
    case OpAttach(r, k') => AttachEffect(ev, r, k');
    case _ =>
  }

  /** What happens during one dispatch: before the flag is lowered, and during the call. */
  datatype Round<R> = Round(before: seq<Op<R>>, during: seq<Op<R>>)

  predicate LegalRound<R(==)>(ev: Events<R>, k: Kind, round: Round<R>)
    requires Inv(ev) && k in DISPATCHED && QueueFor(ev, k).flying.None? && QueueFor(ev, k).queue != []
  {
    && NoDispatch(round.before, k) && NoDispatch(round.during, k)
    && (DispatchKeepsInv(ev, k);
        Legal(TakeNext(ev, k), round.before))
    && (RunKeepsFlying(TakeNext(ev, k), round.before, k);
        DispatchKeepsInv(Run(TakeNext(ev, k), round.before), k);
        Legal(CallTaken(Run(TakeNext(ev, k), round.before), k), round.during))
  }

  function AfterRound<R(==)>(ev: Events<R>, k: Kind, round: Round<R>): (ev': Events<R>)
    requires Inv(ev) && k in DISPATCHED && QueueFor(ev, k).flying.None? && QueueFor(ev, k).queue != []
    requires LegalRound(ev, k, round)
    ensures Inv(ev') && QueueFor(ev', k).flying.None?
  {
    DispatchKeepsInv(ev, k);
    RunKeepsFlying(TakeNext(ev, k), round.before, k);
    var called := CallTaken(Run(TakeNext(ev, k), round.before), k);
    DispatchKeepsInv(Run(TakeNext(ev, k), round.before), k);
    RunKeepsFlying(called, round.during, k);
    Run(called, round.during)
  }

  predicate LegalRounds<R(==)>(ev: Events<R>, k: Kind, rounds: seq<Round<R>>)
    requires Inv(ev) && k in DISPATCHED && QueueFor(ev, k).flying.None?
    decreases |rounds|
  {
    QueueFor(ev, k).queue == [] || rounds == [] ||
    (LegalRound(ev, k, rounds[0]) && LegalRounds(AfterRound(ev, k, rounds[0]), k, rounds[1..]))
  }

  /** A dispatch calls the oldest queued responder, and undoes no call and no accepted trigger. */
  lemma RoundCalls<R>(ev: Events<R>, k: Kind, round: Round<R>)
    requires Inv(ev) && k in DISPATCHED && QueueFor(ev, k).flying.None? && QueueFor(ev, k).queue != []
    requires LegalRound(ev, k, round)
    ensures var q, q' := QueueFor(ev, k), QueueFor(AfterRound(ev, k, round), k);
            Extends(q, q') && q.called + [q.queue[0]] <= q'.called
  {
    hide Inv, Legal, Run, NoDispatch;
    DispatchKeepsInv(ev, k);
    var t := TakeNext(ev, k);
    RunKeepsFlying(t, round.before, k);
    RunExtends(t, round.before);
    RunKeepsCalled(t, round.before, k);
    var u := Run(t, round.before);
    DispatchKeepsInv(u, k);
    RunExtends(CallTaken(u, k), round.during);
  }

  lemma {:induction false} RunKeepsCalled<R>(ev: Events<R>, ops: seq<Op<R>>, k: Kind)
    requires Inv(ev) && Legal(ev, ops) && NoDispatch(ops, k) && k in DISPATCHED
    ensures QueueFor(Run(ev, ops), k).called == QueueFor(ev, k).called
    decreases |ops|
  {
    hide Inv, Safe, Step;
    if ops != [] {
      StepKeepsInv(ev, ops[0]);
      StepKeepsCalled(ev, ops[0], k);
      RunKeepsCalled(Step(ev, ops[0]), ops[1..], k);
    }
  }

  lemma StepKeepsCalled<R>(ev: Events<R>, op: Op<R>, k: Kind)
    requires Inv(ev) && Enabled(ev, op) && k in DISPATCHED && (op.OpTake? || op.OpCall? ==> op.k != k)
    ensures QueueFor(Step(ev, op), k).called == QueueFor(ev, k).called
  {
    hide Inv, Unqueue;
    match op
    case OpClear(r) => UnqueueKeepsCalled(ev, r);
    case OpDetach(r) => UnqueueKeepsCalled(ev, r);
    case OpAttach(r, k') => UnqueueKeepsCalled(ev, r);
    case _ =>
  }

  lemma UnqueueKeepsCalled<R>(ev: Events<R>, r: R)
    requires Inv(ev) && r in ev.kind
    ensures Unqueue(ev, r).onYield.called == ev.onYield.called
    ensures Unqueue(ev, r).onInterrupt.called == ev.onInterrupt.called
  {}

  /** When nothing else happens, a dispatch shortens the queue. */
  lemma QuietRound<R>(ev: Events<R>, k: Kind)
    requires Inv(ev) && k in DISPATCHED && QueueFor(ev, k).flying.None? && QueueFor(ev, k).queue != []
    ensures LegalRound(ev, k, Round([], []))
    ensures QueueFor(AfterRound(ev, k, Round([], [])), k).queue == QueueFor(ev, k).queue[1..]
  {
    hide Inv;
    DispatchKeepsInv(ev, k);
    DispatchKeepsInv(TakeNext(ev, k), k);
  }

  // ----- Inputs on which things go wrong

  function Start<R>(rs: set<R>): (ev: Events<R>)
    ensures Inv(ev)
  {
    var q := Queue([], None, None, true, [], [], {});
    Events(map r | r in rs :: Detached, {}, q, q, [])
  }

  /** A clear during the dispatch does not stop the call. */
  lemma ClearedIsCalled<R>(ev: Events<R>, r: R, k: Kind)
    requires Inv(ev) && r in ev.kind && k in DISPATCHED && QueueFor(ev, k).flying == Some(r)
    ensures QueueFor(Clear(ev, r), k).flying == Some(r)
    ensures QueueFor(CallTaken(Clear(ev, r), k), k).called == QueueFor(ev, k).called + [r]
  {
    ClearEffect(ev, r);
  }

  lemma {:induction false} OneMore<R>(ev: Events<R>, ops: seq<Op<R>>, op: Op<R>)
    requires Inv(ev) && Legal(ev, ops)
    requires Enabled(Run(ev, ops), op) && Safe(Run(ev, ops), op)
    ensures Legal(ev, ops + [op]) && Run(ev, ops + [op]) == Step(Run(ev, ops), op)
    decreases |ops|
  {
    hide Inv, Enabled, Safe, Step;
    StepKeepsInv(Run(ev, ops), op);
    if ops == [] {
      assert (ops + [op])[1..] == [];
    } else {
      StepKeepsInv(ev, ops[0]);
      OneMore(Step(ev, ops[0]), ops[1..], op);
      assert (ops + [op])[1..] == ops[1..] + [op];
    }
  }

  /** Trigger r, begin its dispatch, trigger x, then clear r: r's stale link says that the list is empty, and x
    is lost from it with its flag up. */
  lemma ClearCanLose<R>(r: R, x: R)
    requires r != x
    ensures var start := Start({r, x});
            var ops := [OpAttach(r, OnYield), OpAttach(x, OnYield), OpTrigger(r), OpTake(OnYield), OpTrigger(x)];
            && Legal(start, ops)
            && var ev := Run(start, ops);
               && r in ev.kind && Flying(ev, r) && ev.onYield.queue == [x] && ev.onYield.behind == None
               && x in Clear(ev, r).triggered && !Clear(ev, r).onYield.linked
  {
    hide Inv;
    var start := Start({r, x});
    var ops := [];
    OneMore(start, ops, OpAttach(r, OnYield));
    ops := ops + [OpAttach(r, OnYield)];
    OneMore(start, ops, OpAttach(x, OnYield));
    ops := ops + [OpAttach(x, OnYield)];
    OneMore(start, ops, OpTrigger(r));
    ops := ops + [OpTrigger(r)];
    assert Run(start, ops).onYield.queue == [r];
    OneMore(start, ops, OpTake(OnYield));
    ops := ops + [OpTake(OnYield)];
    OneMore(start, ops, OpTrigger(x));
    ops := ops + [OpTrigger(x)];
    assert ops == [OpAttach(r, OnYield), OpAttach(x, OnYield), OpTrigger(r), OpTake(OnYield), OpTrigger(x)];
  }

  lemma FirstTrigger<R>(r: R) returns (ev: Events<R>)
    ensures var ops := [OpAttach(r, OnYield), OpTrigger(r)];
            Legal(Start({r}), ops) && ev == Run(Start({r}), ops) && Inv(ev)
    ensures r in ev.kind && ev.kind[r] == OnYield && ev.triggered == {r}
    ensures ev.onYield.queue == [r] && ev.onYield.flying.None? && ev.onInterrupt.flying.None?
  {
    hide Inv;
    var start := Start({r});
    OneMore(start, [], OpAttach(r, OnYield));
    OneMore(start, [OpAttach(r, OnYield)], OpTrigger(r));
    assert [OpAttach(r, OnYield)] + [OpTrigger(r)] == [OpAttach(r, OnYield), OpTrigger(r)];
    assert [] + [OpAttach(r, OnYield)] == [OpAttach(r, OnYield)];
    ev := Run(start, [OpAttach(r, OnYield), OpTrigger(r)]);
  }

  /** Begin the dispatch of r, clear it, trigger it again: r is queued, and the call lowers its flag. */
  lemma RetriggerIsLowered<R>(r: R)
    ensures var start, ops := Start({r}), [OpAttach(r, OnYield), OpTrigger(r), OpTake(OnYield), OpClear(r)];
            && Legal(start, ops)
            && var ev := Run(start, ops);
               && r in ev.kind && ev.onYield.flying == Some(r) && !TriggerIsSafe(ev, r)
               && var called := CallTaken(Trigger(ev, r), OnYield);
                  called.onYield.queue == [r] && r !in called.triggered && !Exact(called)
  {
    hide Inv;
    hide Run, Legal, Start;
    var start, ops := Start({r}), [OpAttach(r, OnYield), OpTrigger(r)];
    var ev := FirstTrigger(r);
    OneMore(start, ops, OpTake(OnYield));
    ops := ops + [OpTake(OnYield)];
    ClearEffect(Run(start, ops), r);
    OneMore(start, ops, OpClear(r));
    ops := ops + [OpClear(r)];
    assert ops == [OpAttach(r, OnYield), OpTrigger(r), OpTake(OnYield), OpClear(r)];
    CalledWhileQueued(Run(start, ops), r);
  }

  lemma CalledWhileQueued<R>(ev: Events<R>, r: R)
    requires Inv(ev) && r in ev.kind && r !in ev.triggered && ev.kind[r] == OnYield
    requires ev.onYield.flying == Some(r) && ev.onYield.queue == []
    ensures var called := CallTaken(Trigger(ev, r), OnYield);
            called.onYield.queue == [r] && r !in called.triggered && !Exact(called)
  {
    TriggerKeepsExact(ev, r);
    CallKeepsExact(Trigger(ev, r), OnYield);
  }

  /** Attach, trigger, detach: the flag stays up, and attaching again makes the responder pending on a queue that
    does not hold it. */
  lemma DetachLeavesFlag<R>(r: R)
    ensures var start := Start({r});
            var ops := [OpAttach(r, OnYield), OpTrigger(r), OpDetach(r)];
            && Legal(start, ops)
            && var ev := Run(start, ops);
               && r in ev.triggered && r in ev.kind && ev.kind[r] == Detached && ev.onYield.queue == []
               && !Inv(Attach(ev, r, OnYield))
  {
    hide Inv, Run, Legal, Start, Attach, Detach;
    var start, ops := Start({r}), [OpAttach(r, OnYield), OpTrigger(r)];
    var ev := FirstTrigger(r);
    DetachEffect(ev, r);
    OneMore(start, ops, OpDetach(r));
    AttachKeepsInv(Detach(ev, r), r, OnYield);
    assert ops + [OpDetach(r)] == [OpAttach(r, OnYield), OpTrigger(r), OpDetach(r)];
  }
}

/** The simple form of the timer service: lists of absolute deadlines.

  A running timer is an entry with the number of ticks left before the tick on
  which it fires; a waiting timer is one that has been begun but not yet picked up
  by a tick. This module defines begin, end and tick on that form and proves at
  which ticks a timer fires in every run. Module MillisTimers shows that the
  linked delta list carries out exactly these operations. */
module TimerSchedule {

  datatype Entry<T> = Entry(id: T, due: nat, reload: nat)

  /** `active` is in firing order; `waiting` has the most recently begun timer first. */
  datatype Schedule<T> = Schedule(active: seq<Entry<T>>, waiting: seq<Entry<T>>)

  // ----- Lists of entries

  predicate Sorted<T>(a: seq<Entry<T>>) {
    forall i, j :: 0 <= i < j < |a| ==> a[i].due <= a[j].due
  }

  predicate Unique<T(==)>(a: seq<Entry<T>>) {
    forall i, j :: 0 <= i < j < |a| ==> a[i].id != a[j].id
  }

  predicate HasId<T(==)>(a: seq<Entry<T>>, id: T) {
    exists i :: 0 <= i < |a| && a[i].id == id
  }

  /** How many entries at the front of the list are due no later than d. */
  function InsertPos<T>(a: seq<Entry<T>>, d: nat): (p: nat)
    ensures p <= |a|
    ensures forall i :: 0 <= i < p ==> a[i].due <= d
    ensures p < |a| ==> d < a[p].due
  {
    if a == [] || d < a[0].due then 0 else 1 + InsertPos(a[1..], d)
  }

  /** Insertion behind every entry that is due at the same time or earlier. */
  function Insert<T>(a: seq<Entry<T>>, e: Entry<T>): (r: seq<Entry<T>>)
    ensures |r| == |a| + 1
  {
    var p := InsertPos(a, e.due);
    a[..p] + [e] + a[p..]
  }

  function InsertAll<T>(a: seq<Entry<T>>, es: seq<Entry<T>>): seq<Entry<T>> {
    if es == [] then a else Insert(InsertAll(a, es[..|es| - 1]), es[|es| - 1])
  }

  function Without<T(==)>(a: seq<Entry<T>>, id: T): (r: seq<Entry<T>>)
    ensures |r| <= |a|
  {
    if a == [] then [] else if a[0].id == id then a[1..] else [a[0]] + Without(a[1..], id)
  }

  /** Number of entries at the front that are due now. */
  function Zeros<T>(a: seq<Entry<T>>): (z: nat)
    ensures z <= |a|
    ensures forall i :: 0 <= i < z ==> a[i].due == 0
    ensures z < |a| ==> a[z].due > 0
  {
    if a == [] || a[0].due > 0 then 0 else 1 + Zeros(a[1..])
  }

  /** The repeating timers among the fired ones, due again after their whole period. */
  function Reloads<T>(fired: seq<Entry<T>>): (r: seq<Entry<T>>)
    ensures forall i :: 0 <= i < |r| ==> r[i].due > 0
  {
    if fired == [] then []
    else
      var e := fired[|fired| - 1];
      Reloads(fired[..|fired| - 1]) + if e.reload > 0 then [Entry(e.id, e.reload, e.reload)] else []
  }

  function Lower<T>(a: seq<Entry<T>>): (r: seq<Entry<T>>)
    requires forall i :: 0 <= i < |a| ==> a[i].due > 0
    ensures |r| == |a|
    ensures forall i :: 0 <= i < |a| ==> r[i] == Entry(a[i].id, a[i].due - 1, a[i].reload)
  {
    seq(|a|, i requires 0 <= i < |a| => Entry(a[i].id, a[i].due - 1, a[i].reload))
  }

  function Ids<T>(a: seq<Entry<T>>): (r: seq<T>)
    ensures |r| == |a|
    ensures forall i :: 0 <= i < |a| ==> r[i] == a[i].id
  {
    seq(|a|, i requires 0 <= i < |a| => a[i].id)
  }

  // ----- The operations

  predicate WellFormed<T(==)>(s: Schedule<T>) {
    Sorted(s.active) && Unique(s.active) && Unique(s.waiting) &&
    forall i, j :: 0 <= i < |s.active| && 0 <= j < |s.waiting| ==> s.active[i].id != s.waiting[j].id
  }

  function End<T(==)>(s: Schedule<T>, id: T): Schedule<T> {
    Schedule(Without(s.active, id), Without(s.waiting, id))
  }

  /** Two ticks pass before the count starts: the one that picks the timer up and the firing one. */
  function Delay(ms: nat): nat {
    if ms > 2 then ms - 2 else 0
  }

  function Begin<T(==)>(s: Schedule<T>, id: T, ms: nat, repeating: bool): Schedule<T> {
    var s := End(s, id);
    if ms == 0 then s
    else s.(waiting := [Entry(id, Delay(ms), if repeating then ms else 0)] + s.waiting)
  }

  /** Entries due now, in list order. */
  function Fired<T>(s: Schedule<T>): seq<Entry<T>> {
    s.active[..Zeros(s.active)]
  }

  /** What is left to run once the fired timers are gone and the repeating ones are back. */
  function Running<T>(s: Schedule<T>): (r: seq<Entry<T>>)
    requires Sorted(s.active)
    ensures forall i :: 0 <= i < |r| ==> r[i].due > 0
  {
    var z := Zeros(s.active);
    InsertAllPositive(s.active[z..], Reloads(s.active[..z]));
    InsertAll(s.active[z..], Reloads(s.active[..z]))
  }

  function Tick<T>(s: Schedule<T>): Schedule<T>
    requires Sorted(s.active)
  {
    Schedule(InsertAll(Lower(Running(s)), s.waiting), [])
  }

  // ----- Lemmas about insertion

  lemma InsertMembers<T>(a: seq<Entry<T>>, e: Entry<T>)
    ensures forall x :: x in Insert(a, e) <==> x in a || x == e
  {
    var p := InsertPos(a, e.due);
    assert a == a[..p] + a[p..];
  }

  lemma {:induction false} InsertAllMembers<T>(a: seq<Entry<T>>, es: seq<Entry<T>>)
    ensures forall x :: x in InsertAll(a, es) <==> x in a || x in es
    ensures |InsertAll(a, es)| == |a| + |es|
  {
    if es != [] {
      var init := es[..|es| - 1];
      assert es == init + [es[|es| - 1]];
      InsertAllMembers(a, init);
      InsertMembers(InsertAll(a, init), es[|es| - 1]);
    }
  }

  lemma InsertAllPositive<T>(a: seq<Entry<T>>, es: seq<Entry<T>>)
    requires forall i :: 0 <= i < |a| ==> a[i].due > 0
    requires forall i :: 0 <= i < |es| ==> es[i].due > 0
    ensures forall i :: 0 <= i < |InsertAll(a, es)| ==> InsertAll(a, es)[i].due > 0
  {
    InsertAllMembers(a, es);
    forall i | 0 <= i < |InsertAll(a, es)|
      ensures InsertAll(a, es)[i].due > 0
    {
      var x := InsertAll(a, es)[i];
      assert x in InsertAll(a, es);
    }
  }

  lemma InsertSorted<T>(a: seq<Entry<T>>, e: Entry<T>)
    requires Sorted(a)
    ensures Sorted(Insert(a, e))
  {}

  lemma InsertUnique<T>(a: seq<Entry<T>>, e: Entry<T>)
    requires Unique(a) && !HasId(a, e.id)
    ensures Unique(Insert(a, e))
    ensures forall id :: HasId(Insert(a, e), id) <==> HasId(a, id) || id == e.id
  {
    var p, r := InsertPos(a, e.due), Insert(a, e);
    forall id
      ensures HasId(r, id) <==> HasId(a, id) || id == e.id
    {
      if i :| 0 <= i < |a| && a[i].id == id {
        assert r[if i < p then i else i + 1] == a[i];
      }
      assert r[p] == e;
    }
  }

  lemma {:induction false} InsertAllKeeps<T>(a: seq<Entry<T>>, es: seq<Entry<T>>)
    requires Sorted(a) && Unique(a) && Unique(es)
    requires forall i, j :: 0 <= i < |a| && 0 <= j < |es| ==> a[i].id != es[j].id
    ensures Sorted(InsertAll(a, es)) && Unique(InsertAll(a, es))
    ensures forall id :: HasId(InsertAll(a, es), id) <==> HasId(a, id) || HasId(es, id)
  {
    if es != [] {
      var init, e := es[..|es| - 1], es[|es| - 1];
      InsertAllKeeps(a, init);
      InsertSorted(InsertAll(a, init), e);
      InsertUnique(InsertAll(a, init), e);
      forall id
        ensures HasId(es, id) <==> HasId(init, id) || id == e.id
      {
        if i :| 0 <= i < |es| && es[i].id == id {
          assert i < |init| ==> init[i].id == id;
        }
        assert HasId(init, id) ==> HasId(es, id) by {
          if i :| 0 <= i < |init| && init[i].id == id { assert es[i].id == id; }
        }
        assert es[|es| - 1] == e;
      }
    }
  }

  lemma {:induction false} InsertPosBehind<T>(front: seq<Entry<T>>, rest: seq<Entry<T>>, d: nat)
    requires forall i :: 0 <= i < |front| ==> front[i].due <= d
    ensures InsertPos(front + rest, d) == |front| + InsertPos(rest, d)
  {
    if front == [] {
      assert front + rest == rest;
    } else {
      InsertPosBehind(front[1..], rest, d);
      assert (front + rest)[1..] == front[1..] + rest;
    }
  }

  /** A later entry goes past a block of entries that are due earlier. */
  lemma InsertBehind<T>(front: seq<Entry<T>>, rest: seq<Entry<T>>, e: Entry<T>)
    requires forall i :: 0 <= i < |front| ==> front[i].due <= e.due
    ensures Insert(front + rest, e) == front + Insert(rest, e)
  {
    InsertPosBehind(front, rest, e.due);
    var q := InsertPos(rest, e.due);
    assert (front + rest)[..|front| + q] == front + rest[..q];
    assert (front + rest)[|front| + q..] == rest[q..];
  }

  /** In a sorted list the insertion place is settled by its two neighbours. */
  lemma InsertPosIs<T>(a: seq<Entry<T>>, d: nat, p: nat)
    requires Sorted(a) && p <= |a|
    requires p > 0 ==> a[p - 1].due <= d
    requires p < |a| ==> d < a[p].due
    ensures InsertPos(a, d) == p
  {
  }

  lemma {:induction false} WithoutAt<T>(a: seq<Entry<T>>, k: nat)
    requires Unique(a) && k < |a|
    ensures Without(a, a[k].id) == a[..k] + a[k + 1..]
  {
    if k > 0 {
      var b := a[1..];
      assert a[0].id != a[k].id && b[k - 1] == a[k];
      WithoutAt(b, k - 1);
      assert b[..k - 1] == a[1..k] && b[k..] == a[k + 1..];
      assert [a[0]] + a[1..k] == a[..k];
    }
  }

  lemma {:induction false} WithoutAbsent<T>(a: seq<Entry<T>>, id: T)
    requires !HasId(a, id)
    ensures Without(a, id) == a
  {
    if a != [] {
      assert a[0].id != id;
      forall i | 0 <= i < |a[1..]|
        ensures a[1..][i].id != id
      {
        assert a[1..][i] == a[i + 1];
      }
      WithoutAbsent(a[1..], id);
    }
  }

  lemma DropAtKeeps<T>(a: seq<Entry<T>>, k: nat)
    requires Unique(a) && k < |a|
    ensures var r := a[..k] + a[k + 1..];
            Unique(r) && (Sorted(a) ==> Sorted(r)) &&
            (forall x :: x in r <==> x in a && x.id != a[k].id) &&
            forall i :: 0 <= i < |r| ==> r[i] in a && r[i].id != a[k].id
  {
    var r := a[..k] + a[k + 1..];
    assert forall i :: 0 <= i < |r| ==> r[i] == a[if i < k then i else i + 1];
    forall x
      ensures x in r <==> x in a && x.id != a[k].id
    {
      if i :| 0 <= i < |a| && a[i] == x && i != k {
        assert r[if i < k then i else i - 1] == x;
      }
    }
  }

  lemma WithoutKeeps<T>(a: seq<Entry<T>>, id: T)
    requires Unique(a)
    ensures Unique(Without(a, id)) && (Sorted(a) ==> Sorted(Without(a, id)))
    ensures forall x :: x in Without(a, id) <==> x in a && x.id != id
    ensures forall i :: 0 <= i < |Without(a, id)| ==> Without(a, id)[i] in a && Without(a, id)[i].id != id
  {
    if k :| 0 <= k < |a| && a[k].id == id {
      WithoutAt(a, k);
      DropAtKeeps(a, k);
    } else {
      WithoutAbsent(a, id);
    }
  }

  lemma {:induction false} ReloadsMembers<T>(fired: seq<Entry<T>>)
    requires forall i :: 0 <= i < |fired| ==> fired[i].due == 0
    ensures forall x :: x in Reloads(fired) <==> x.due == x.reload > 0 && Entry(x.id, 0, x.reload) in fired
  {
    if fired != [] {
      var init, e := fired[..|fired| - 1], fired[|fired| - 1];
      ReloadsMembers(init);
      assert fired == init + [e];
      assert forall x: Entry<T> :: Entry(x.id, 0, x.reload) in fired <==>
                         Entry(x.id, 0, x.reload) in init || (x.id == e.id && x.reload == e.reload);
    }
  }

  lemma {:induction false} ReloadsUnique<T>(fired: seq<Entry<T>>)
    requires Unique(fired)
    ensures Unique(Reloads(fired))
    ensures forall i :: 0 <= i < |Reloads(fired)| ==> HasId(fired, Reloads(fired)[i].id)
  {
    if fired != [] {
      var init, e := fired[..|fired| - 1], fired[|fired| - 1];
      var r, r' := Reloads(fired), Reloads(init);
      ReloadsUnique(init);
      forall i | 0 <= i < |r'|
        ensures r'[i].id != e.id && HasId(fired, r'[i].id)
      {
        var k :| 0 <= k < |init| && init[k].id == r'[i].id;
        assert fired[k].id == r'[i].id;
      }
      assert fired[|fired| - 1] == e;
    }
  }
}

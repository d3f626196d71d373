/** Whole runs of the timer service: at which ticks does one timer fire,
  whatever happens to all the others? */
module TimerRuns {
  import opened TimerSchedule

  datatype Op<T> = Begin(id: T, ms: nat, repeating: bool) | End(id: T) | Tick

  /** What the service knows about one timer. */
  datatype Status = Off | Waiting(due: nat, reload: nat) | Active(due: nat, reload: nat)

  function Step<T(==)>(s: Schedule<T>, op: Op<T>): Schedule<T>
    requires Sorted(s.active)
  {
    match op
    case Begin(id, ms, repeating) => TimerSchedule.Begin(s, id, ms, repeating)
    case End(id) => TimerSchedule.End(s, id)
    case Tick => TimerSchedule.Tick(s)
  }

  function Run<T(==)>(s: Schedule<T>, ops: seq<Op<T>>): (r: Schedule<T>)
    requires WellFormed(s)
    ensures WellFormed(r)
    decreases |ops|
  {
    if ops == [] then s
    else
      StepKeepsWellFormed(s, ops[0]);
      Run(Step(s, ops[0]), ops[1..])
  }

  /** For each tick of the run, the timers that fired on it, in order. */
  function FiringLog<T(==)>(s: Schedule<T>, ops: seq<Op<T>>): seq<seq<T>>
    requires WellFormed(s)
    decreases |ops|
  {
    if ops == [] then []
    else
      StepKeepsWellFormed(s, ops[0]);
      (if ops[0].Tick? then [Ids(Fired(s))] else []) + FiringLog(Step(s, ops[0]), ops[1..])
  }

  predicate Mentions<T(==)>(ops: seq<Op<T>>, t: T) {
    exists i :: 0 <= i < |ops| && !ops[i].Tick? && ops[i].id == t
  }

  // ----- Every operation keeps the lists in order

  lemma EndKeepsWellFormed<T>(s: Schedule<T>, id: T)
    requires WellFormed(s)
    ensures WellFormed(TimerSchedule.End(s, id))
    ensures !HasId(TimerSchedule.End(s, id).active, id) && !HasId(TimerSchedule.End(s, id).waiting, id)
  {
    WithoutKeeps(s.active, id);
    WithoutKeeps(s.waiting, id);
    var r := TimerSchedule.End(s, id);
    forall i, j | 0 <= i < |r.active| && 0 <= j < |r.waiting|
      ensures r.active[i].id != r.waiting[j].id
    {
      var x, y := r.active[i], r.waiting[j];
      assert x in s.active && y in s.waiting;
    }
  }

  /** Splitting a sorted list at its last zero separates the due entries from the rest. */
  lemma SplitMembers<T>(s: Schedule<T>)
    requires Sorted(s.active)
    ensures forall x :: x in s.active[..Zeros(s.active)] <==> x in s.active && x.due == 0
    ensures forall x :: x in s.active[Zeros(s.active)..] <==> x in s.active && x.due > 0
  {
    var z := Zeros(s.active);
    var front, rest := s.active[..z], s.active[z..];
    forall i | 0 <= i < |rest| ensures rest[i].due > 0 { ZerosAll(s, z + i); }
    assert s.active == front + rest;
  }

  lemma RunningOrder<T>(s: Schedule<T>)
    requires WellFormed(s)
    ensures Sorted(Running(s)) && Unique(Running(s))
    ensures forall id :: HasId(Running(s), id) ==> HasId(s.active, id)
  {
    var z := Zeros(s.active);
    var front, rest := s.active[..z], s.active[z..];
    var back := Reloads(front);
    ReloadsUnique(front);
    forall i, j | 0 <= i < |rest| && 0 <= j < |back|
      ensures rest[i].id != back[j].id
    {
      var k :| 0 <= k < |front| && front[k].id == back[j].id;
      assert s.active[k].id == back[j].id && s.active[z + i].id == rest[i].id;
    }
    InsertAllKeeps(rest, back);
    forall id | HasId(Running(s), id)
      ensures HasId(s.active, id)
    {
      if i :| 0 <= i < |rest| && rest[i].id == id {
        assert s.active[z + i].id == id;
      } else {
        assert HasId(back, id);
        var k :| 0 <= k < |front| && front[k].id == id;
        assert s.active[k].id == id;
      }
    }
  }

  /** The entries that run on after a tick: those not yet due, and the repeating ones that fired. */
  lemma RunningMembers<T>(s: Schedule<T>)
    requires WellFormed(s)
    ensures forall x :: x in Running(s) <==>
                        (x in s.active && x.due > 0) ||
                        (x.due == x.reload > 0 && Entry(x.id, 0, x.reload) in s.active)
  {
    var z := Zeros(s.active);
    SplitMembers(s);
    ReloadsMembers(s.active[..z]);
    InsertAllMembers(s.active[z..], Reloads(s.active[..z]));
  }

  /** In a sorted list the leading zeros are all the zeros. */
  lemma ZerosAll<T>(s: Schedule<T>, k: nat)
    requires Sorted(s.active) && k < |s.active|
    ensures k < Zeros(s.active) <==> s.active[k].due == 0
  {
    var z := Zeros(s.active);
    if z <= k {
      assert s.active[z].due <= s.active[k].due;
    }
  }

  lemma LowerKeeps<T>(a: seq<Entry<T>>)
    requires forall i :: 0 <= i < |a| ==> a[i].due > 0
    ensures Sorted(a) ==> Sorted(Lower(a))
    ensures Unique(a) ==> Unique(Lower(a))
  {}

  lemma LowerMember<T>(a: seq<Entry<T>>, x: Entry<T>)
    requires forall i :: 0 <= i < |a| ==> a[i].due > 0
    ensures x in Lower(a) <==> Entry(x.id, x.due + 1, x.reload) in a
  {
    if k :| 0 <= k < |a| && a[k] == Entry(x.id, x.due + 1, x.reload) {
      assert Lower(a)[k] == x;
    }
  }

  lemma TickKeepsWellFormed<T>(s: Schedule<T>)
    requires WellFormed(s)
    ensures WellFormed(TimerSchedule.Tick(s))
  {
    var r, w := Running(s), s.waiting;
    RunningOrder(s);
    LowerKeeps(r);
    var l := Lower(r);
    forall i, j | 0 <= i < |l| && 0 <= j < |w|
      ensures l[i].id != w[j].id
    {
      assert HasId(r, r[i].id);
    }
    InsertAllKeeps(l, w);
  }

  lemma StepKeepsWellFormed<T>(s: Schedule<T>, op: Op<T>)
    requires WellFormed(s)
    ensures WellFormed(Step(s, op))
  {
    match op
    case Begin(id, ms, repeating) => EndKeepsWellFormed(s, id);
    case End(id) => EndKeepsWellFormed(s, id);
    case Tick => TickKeepsWellFormed(s);
  }

  // ----- One timer on its own

  predicate Is<T(==)>(s: Schedule<T>, t: T, st: Status) {
    match st
    case Off => !HasId(s.active, t) && !HasId(s.waiting, t)
    case Waiting(d, r) => Entry(t, d, r) in s.waiting && !HasId(s.active, t)
    case Active(d, r) => Entry(t, d, r) in s.active && !HasId(s.waiting, t)
  }

  function AfterTick(st: Status): Status {
    match st
    case Off => Off
    case Waiting(d, r) => Active(d, r)
    case Active(d, r) =>
      if d > 0 then Active(d - 1, r) else if r > 0 then Active(r - 1, r) else Off
  }

  /** Does a timer in this state fire on the k-th tick from now (k >= 1)? */
  predicate FiresAt(st: Status, k: nat) {
    match st
    case Off => false
    case Waiting(d, r) => k == d + 2 || (r > 0 && k > d + 2 && (k - d - 2) % r == 0)
    case Active(d, r) => k == d + 1 || (r > 0 && k > d + 1 && (k - d - 1) % r == 0)
  }

  /** A tick does to each timer what that timer's own state says, independently of all the others,
    and each timer fires at most once in a tick. */
  lemma TickTracks<T>(s: Schedule<T>, t: T, st: Status)
    requires WellFormed(s) && Is(s, t, st)
    ensures Is(TimerSchedule.Tick(s), t, AfterTick(st))
    ensures t in Ids(Fired(s)) <==> st.Active? && st.due == 0
    ensures forall i, j :: 0 <= i < j < |Ids(Fired(s))| ==> Ids(Fired(s))[i] != Ids(Fired(s))[j]
  {
    FiredOnce(s);
    if i :| 0 <= i < |s.active| && s.active[i].id == t {
      ZerosAll(s, i);
      assert i < Zeros(s.active) ==> Ids(Fired(s))[i] == t;
    }
    StatusAfterTick(s, t, st);
  }

  lemma FiredOnce<T>(s: Schedule<T>)
    requires WellFormed(s)
    ensures forall i, j :: 0 <= i < j < |Ids(Fired(s))| ==> Ids(Fired(s))[i] != Ids(Fired(s))[j]
    ensures forall t :: t in Ids(Fired(s)) ==> exists i :: 0 <= i < Zeros(s.active) && s.active[i].id == t
  {}

  lemma EntryIsStatus<T>(s: Schedule<T>, t: T, st: Status, x: Entry<T>)
    requires WellFormed(s) && Is(s, t, st) && x.id == t
    ensures x in s.active <==> st == Active(x.due, x.reload)
    ensures x in s.waiting <==> st == Waiting(x.due, x.reload)
  {
    assert x in s.active ==> HasId(s.active, t);
    assert x in s.waiting ==> HasId(s.waiting, t);
  }

  lemma InsertAllMember<T>(a: seq<Entry<T>>, es: seq<Entry<T>>, x: Entry<T>)
    ensures x in InsertAll(a, es) <==> x in a || x in es
  {
    InsertAllMembers(a, es);
  }

  lemma TickMember<T>(s: Schedule<T>, x: Entry<T>)
    requires WellFormed(s)
    ensures x in TimerSchedule.Tick(s).active <==> x in s.waiting || Entry(x.id, x.due + 1, x.reload) in Running(s)
  {
    LowerMember(Running(s), x);
    InsertAllMember(Lower(Running(s)), s.waiting, x);
  }

  lemma RunningMember<T>(s: Schedule<T>, x: Entry<T>)
    requires WellFormed(s)
    ensures x in Running(s) <==>
            (x in s.active && x.due > 0) || (x.due == x.reload > 0 && Entry(x.id, 0, x.reload) in s.active)
  {
    RunningMembers(s);
  }

  lemma ActiveAfterTick<T>(s: Schedule<T>, t: T, st: Status, x: Entry<T>)
    requires WellFormed(s) && Is(s, t, st) && x.id == t
    ensures x in TimerSchedule.Tick(s).active <==> AfterTick(st) == Active(x.due, x.reload)
  {
    var y := Entry(t, x.due + 1, x.reload);
    TickMember(s, x);
    RunningMember(s, y);
    EntryIsStatus(s, t, st, x);
    EntryIsStatus(s, t, st, y);
    EntryIsStatus(s, t, st, Entry(t, 0, x.reload));
  }

  lemma StatusAfterTick<T>(s: Schedule<T>, t: T, st: Status)
    requires WellFormed(s) && Is(s, t, st)
    ensures Is(TimerSchedule.Tick(s), t, AfterTick(st))
  {
    var a := TimerSchedule.Tick(s).active;
    match AfterTick(st)
    case Active(d, r) => ActiveAfterTick(s, t, st, Entry(t, d, r));
    case Off =>
      if i :| 0 <= i < |a| && a[i].id == t {
        var x := a[i];
        assert x in a;
        ActiveAfterTick(s, t, st, x);
      }
  }

  lemma AbsentStays<T>(a: seq<Entry<T>>, b: seq<Entry<T>>, t: T)
    requires forall i :: 0 <= i < |b| ==> b[i] in a
    ensures !HasId(a, t) ==> !HasId(b, t)
  {
    if i :| 0 <= i < |b| && b[i].id == t {
      var x := b[i];
      assert x in a;
    }
  }

  lemma OthersTrack<T>(s: Schedule<T>, op: Op<T>, t: T, st: Status)
    requires WellFormed(s) && Is(s, t, st) && !op.Tick? && op.id != t
    ensures Is(Step(s, op), t, st)
  {
    var s' := TimerSchedule.End(s, op.id);
    WithoutKeeps(s.active, op.id);
    WithoutKeeps(s.waiting, op.id);
    AbsentStays(s.active, s'.active, t);
    AbsentStays(s.waiting, s'.waiting, t);
    assert Is(s', t, st);
  }

  lemma BeginTracks<T>(s: Schedule<T>, t: T, ms: nat, repeating: bool)
    requires WellFormed(s)
    ensures Is(TimerSchedule.Begin(s, t, ms, repeating), t,
               if ms == 0 then Off else Waiting(Delay(ms), if repeating then ms else 0))
  {
    EndKeepsWellFormed(s, t);
    var w := TimerSchedule.Begin(s, t, ms, repeating).waiting;
    assert ms > 0 ==> w[0] == Entry(t, Delay(ms), if repeating then ms else 0);
  }

  lemma FiresLater(st: Status, k: nat)
    requires k >= 1
    ensures FiresAt(st, k + 1) <==> FiresAt(AfterTick(st), k)
  {
    if st.Active? && st.due == 0 && st.reload > 0 {
      var r := st.reload;
      if k >= r {
        assert (k - r) % r == k % r by { SubMod(k, r); }
      } else {
        assert k % r == k by { SmallMod(k, r); }
      }
    }
  }

  lemma SubMod(k: nat, r: nat)
    requires 0 < r <= k
    ensures (k - r) % r == k % r
  {
    var q, m := k / r, k % r;
    assert k == q * r + m;
    assert k - r == (q - 1) * r + m;
    DivUnique(k - r, r, q - 1, m);
  }

  lemma SmallMod(k: nat, r: nat)
    requires k < r
    ensures k % r == k
  {}

  lemma DivUnique(n: nat, r: nat, q: int, m: nat)
    requires m < r && n == q * r + m
    ensures n % r == m
  {
    var q', m' := n / r, n % r;
    assert n == q' * r + m';
    Distribute(q, q', r);
    Distribute(q', q, r);
    if q > q' { TimesAtLeast(q - q', r); }
    if q < q' { TimesAtLeast(q' - q, r); }
  }

  lemma Distribute(q: int, q': int, r: int)
    ensures (q - q') * r == q * r - q' * r
  {}

  lemma TimesAtLeast(d: nat, r: nat)
    requires d >= 1
    ensures d * r >= r
  {}

  /** From any state of one timer, the firing log of any run that leaves it alone is settled by that state. */
  lemma {:induction false} FiringTimesFrom<T>(s: Schedule<T>, t: T, st: Status, ops: seq<Op<T>>, k: nat)
    requires WellFormed(s) && Is(s, t, st) && !Mentions(ops, t)
    requires 1 <= k <= |FiringLog(s, ops)|
    ensures t in FiringLog(s, ops)[k - 1] <==> FiresAt(st, k)
    decreases |ops|
  {
    hide WellFormed, Sorted, Is, FiringLog, FiresAt, Fired, AfterTick, Mentions, Ids, TimerSchedule.Tick;
    LogAt(s, ops, k);
    RestMentions(ops, t);
    var op, rest := ops[0], ops[1..];
    if op.Tick? {
      TickTracks(s, t, st);
      if k > 1 {
        FiringTimesFrom(Step(s, op), t, AfterTick(st), rest, k - 1);
        FiresLater(st, k - 1);
      } else {
        FiresFirst(st);
      }
    } else {
      OthersTrack(s, op, t, st);
      FiringTimesFrom(Step(s, op), t, st, rest, k);
    }
  }

  /** Where the log's k-th entry comes from. */
  lemma {:induction false} LogAt<T>(s: Schedule<T>, ops: seq<Op<T>>, k: nat)
    requires WellFormed(s) && 1 <= k <= |FiringLog(s, ops)|
    ensures ops != [] && Sorted(s.active) && WellFormed(Step(s, ops[0]))
    ensures var log, rest := FiringLog(s, ops), FiringLog(Step(s, ops[0]), ops[1..]);
            if !ops[0].Tick? then log == rest
            else if k == 1 then log[k - 1] == Ids(Fired(s))
            else k - 1 <= |rest| && log[k - 1] == rest[k - 2]
  {
    LogUnfolds(s, ops);
    hide *;
  }

  lemma {:induction false} LogUnfolds<T>(s: Schedule<T>, ops: seq<Op<T>>)
    requires WellFormed(s) && ops != []
    ensures WellFormed(Step(s, ops[0]))
    ensures FiringLog(s, ops) ==
            (if ops[0].Tick? then [Ids(Fired(s))] else []) + FiringLog(Step(s, ops[0]), ops[1..])
  {
    StepKeepsWellFormed(s, ops[0]);
    hide Step, Fired, Ids;
  }

  lemma RestMentions<T>(ops: seq<Op<T>>, t: T)
    requires ops != [] && !Mentions(ops, t)
    ensures !Mentions(ops[1..], t) && (ops[0].Tick? || ops[0].id != t)
  {
    assert forall i :: 0 <= i < |ops[1..]| ==> ops[1..][i] == ops[i + 1];
  }

  lemma FiresFirst(st: Status)
    ensures FiresAt(st, 1) <==> st.Active? && st.due == 0
  {}

  /** The ticks on which a timer begun with `ms` fires. */
  predicate DueAt(ms: nat, repeating: bool, k: nat) {
    var first := if ms > 2 then ms else 2;
    k == first || (repeating && k > first && ms > 0 && (k - first) % ms == 0)
  }

  /** The timer is fired by the ticks on which it is due, and by no others. The first tick of the log is tick 1. */
  predicate FiresWhenDue<T(==)>(t: T, ms: nat, repeating: bool, log: seq<seq<T>>) {
    forall i :: 0 <= i < |log| ==> (t in log[i] <==> ms >= 1 && DueAt(ms, repeating, i + 1))
  }

  /** A timer begun with ms >= 1 and then left alone fires on tick max(ms, 2), and never again when it is
    a one-shot, or again on every ms-th tick when it repeats; begun with 0 it does not fire. */
  lemma FiringTimes<T>(s: Schedule<T>, t: T, ms: nat, repeating: bool, ops: seq<Op<T>>)
    requires WellFormed(s) && !Mentions(ops, t)
    ensures WellFormed(Step(s, Begin(t, ms, repeating)))
    ensures FiresWhenDue(t, ms, repeating, FiringLog(Step(s, Begin(t, ms, repeating)), ops))
  {
    var st := if ms == 0 then Off else Waiting(Delay(ms), if repeating then ms else 0);
    var s' := Step(s, Begin(t, ms, repeating));
    StepKeepsWellFormed(s, Begin(t, ms, repeating));
    BeginTracks(s, t, ms, repeating);
    var log := FiringLog(s', ops);
    forall i | 0 <= i < |log|
      ensures t in log[i] <==> ms >= 1 && DueAt(ms, repeating, i + 1)
    {
      hide WellFormed, Is, FiringLog;
      FiringTimesFrom(s', t, st, ops, i + 1);
      FiresIsDue(ms, repeating, i + 1);
    }
  }

  lemma FiresIsDue(ms: nat, repeating: bool, k: nat)
    requires k >= 1
    ensures var st := if ms == 0 then Off else Waiting(Delay(ms), if repeating then ms else 0);
            FiresAt(st, k) <==> ms >= 1 && DueAt(ms, repeating, k)
  {
    var first := if ms > 2 then ms else 2;
    assert ms > 0 ==> k - Delay(ms) - 2 == k - first;
  }

  /** An ended timer stays silent, even when other timers come and go. */
  lemma EndedIsSilent<T>(s: Schedule<T>, t: T, ops: seq<Op<T>>)
    requires WellFormed(s) && !Mentions(ops, t)
    ensures WellFormed(Step(s, End(t)))
    ensures var log := FiringLog(Step(s, End(t)), ops);
            forall k :: 0 <= k < |log| ==> t !in log[k]
  {
    EndKeepsWellFormed(s, t);
    var log := FiringLog(Step(s, End(t)), ops);
    forall k | 0 <= k < |log|
      ensures t !in log[k]
    {
      FiringTimesFrom(Step(s, End(t)), t, Off, ops, k + 1);
    }
  }
}

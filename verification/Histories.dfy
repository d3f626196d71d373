/** Sequences of events of which some were withdrawn. */
module Histories {

  /** The events of h, in order, except those at the withdrawn positions. */
  function Keep<T>(h: seq<T>, withdrawn: set<nat>): (r: seq<T>)
    ensures |r| <= |h|
  {
    if h == [] then []
    else
      var n := |h| - 1;
      Keep(h[..n], withdrawn) + if n in withdrawn then [] else [h[n]]
  }

  /** The position in h of the i-th event that was kept. */
  function KeptAt<T>(h: seq<T>, withdrawn: set<nat>, i: nat): (k: nat)
    requires i < |Keep(h, withdrawn)|
    ensures k < |h| && k !in withdrawn && h[k] == Keep(h, withdrawn)[i]
  {
    var n := |h| - 1;
    if i < |Keep(h[..n], withdrawn)| then KeptAt(h[..n], withdrawn, i) else n
  }

  lemma KeepAppend<T>(h: seq<T>, withdrawn: set<nat>, x: T)
    requires |h| !in withdrawn
    ensures Keep(h + [x], withdrawn) == Keep(h, withdrawn) + [x]
  {
    assert (h + [x])[..|h|] == h;
  }

  /** Withdrawing positions beyond the end changes nothing. */
  lemma {:induction false} KeepBeyond<T>(h: seq<T>, withdrawn: set<nat>, more: set<nat>)
    requires forall k :: k in more ==> k >= |h| || k in withdrawn
    ensures Keep(h, withdrawn + more) == Keep(h, withdrawn)
  {
    if h != [] {
      KeepBeyond(h[..|h| - 1], withdrawn, more);
    }
  }

  /** Events before the first withdrawn one are all kept. */
  lemma {:induction false} KeepFront<T>(h: seq<T>, withdrawn: set<nat>, n: nat)
    requires n <= |h| && forall k :: k in withdrawn ==> n <= k
    ensures h[..n] <= Keep(h, withdrawn)
    decreases |h|
  {
    if n < |h| {
      KeepFront(h[..|h| - 1], withdrawn, n);
      assert h[..|h| - 1][..n] == h[..n];
    } else {
      KeepAll(h, withdrawn);
    }
  }

  lemma {:induction false} KeepAll<T>(h: seq<T>, withdrawn: set<nat>)
    requires forall k :: k in withdrawn ==> |h| <= k
    ensures Keep(h, withdrawn) == h
  {
    if h != [] {
      KeepAll(h[..|h| - 1], withdrawn);
      assert h[..|h| - 1] + [h[|h| - 1]] == h;
    }
  }

  /** Withdrawing the i-th kept event removes exactly that event. */
  lemma {:induction false} KeepWithdraw<T>(h: seq<T>, withdrawn: set<nat>, i: nat)
    requires i < |Keep(h, withdrawn)|
    ensures var r := Keep(h, withdrawn);
            Keep(h, withdrawn + {KeptAt(h, withdrawn, i)}) == r[..i] + r[i + 1..]
  {
    var n, k := |h| - 1, KeptAt(h, withdrawn, i);
    var init, r := Keep(h[..n], withdrawn), Keep(h, withdrawn);
    if i < |init| {
      KeepWithdraw(h[..n], withdrawn, i);
      assert k < n;
      assert r[i + 1..] == init[i + 1..] + r[|init|..];
      assert r[..i] == init[..i];
    } else {
      KeepBeyond(h[..n], withdrawn, {n});
      assert r[..i] == init;
    }
  }

  /** Events none of which is withdrawn are all kept. */
  lemma {:induction false} KeepWhole<T>(a: seq<T>, b: seq<T>, withdrawn: set<nat>)
    requires forall k :: k in withdrawn ==> k < |a|
    ensures Keep(a + b, withdrawn) == Keep(a, withdrawn) + b
    decreases |b|
  {
    if b == [] {
      assert a + b == a;
    } else {
      var m := |b| - 1;
      KeepWhole(a, b[..m], withdrawn);
      assert (a + b)[..|a| + m] == a + b[..m];
      assert b == b[..m] + [b[m]];
    }
  }

  /** Withdrawing all of b leaves what was kept of a. */
  lemma {:induction false} KeepNone<T>(a: seq<T>, b: seq<T>, withdrawn: set<nat>, all: set<nat>)
    requires forall k: nat :: |a| <= k < |a| + |b| ==> k in all
    requires forall k :: k in all ==> |a| <= k
    ensures Keep(a + b, withdrawn + all) == Keep(a, withdrawn)
    decreases |b|
  {
    if b == [] {
      assert a + b == a;
      KeepBeyond(a, withdrawn, all);
    } else {
      var m := |b| - 1;
      assert (a + b)[..|a| + m] == a + b[..m];
      KeepNone(a, b[..m], withdrawn, all);
    }
  }

  /** The positions from lo up to, not including, hi. */
  function Positions(lo: nat, hi: nat): (r: set<nat>)
    ensures forall k: nat :: k in r <==> lo <= k < hi
  {
    if lo >= hi then {} else Positions(lo, hi - 1) + {hi - 1}
  }
}

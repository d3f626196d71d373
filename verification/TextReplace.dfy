/** Search and replacement on texts: what replacing means, and what replacing from
  the right end computes. Nothing here knows about buffers. */
module TextReplace {

  type Text = seq<char>

  predicate MatchesAt(t: Text, p: Text, i: int) {
    0 <= i && i + |p| <= |t| && t[i..i + |p|] == p
  }

  /** The leftmost place where p occurs in t, or -1. */
  function Find(t: Text, p: Text): (i: int)
    ensures -1 <= i
    ensures i >= 0 ==> MatchesAt(t, p, i)
    ensures forall j :: 0 <= j && (i < 0 || j < i) ==> !MatchesAt(t, p, j)
  {
    if p <= t then 0
    else if t == [] then -1
    else
      var i := Find(t[1..], p);
      ShiftMatch(t, p);
      if i < 0 then -1 else i + 1
  }

  lemma ShiftMatch(t: Text, p: Text)
    requires t != []
    ensures forall j :: 1 <= j ==> (MatchesAt(t, p, j) <==> MatchesAt(t[1..], p, j - 1))
  {
    forall j | 1 <= j
      ensures MatchesAt(t, p, j) <==> MatchesAt(t[1..], p, j - 1)
    {
      if j + |p| <= |t| {
        SliceOfTail(t, 1, j - 1, j - 1 + |p|);
      }
    }
  }

  lemma SliceOfTail(t: Text, q: nat, a: nat, b: nat)
    requires a <= b && q + b <= |t|
    ensures t[q..][a..b] == t[q + a..q + b]
  {
    forall i | 0 <= i < b - a
      ensures t[q..][a..b][i] == t[q + a..q + b][i]
    {
      assert t[q..][a + i] == t[q + a + i];
    }
  }

  /** Leftmost, non-overlapping replacement of p by r. */
  function ReplaceAll(t: Text, p: Text, r: Text): Text
    requires p != []
    decreases |t|
  {
    if t == [] then []
    else if p <= t then r + ReplaceAll(t[|p|..], p, r)
    else [t[0]] + ReplaceAll(t[1..], p, r)
  }

  /** How many replacements that makes. */
  function Count(t: Text, p: Text): nat
    requires p != []
    decreases |t|
  {
    if t == [] then 0
    else if p <= t then 1 + Count(t[|p|..], p)
    else Count(t[1..], p)
  }

  /** Replacement from the right end: each place is looked at once, after everything to its right
    has been replaced, and may match text that a replacement has put there. */
  function RightToLeft(t: Text, p: Text, r: Text): Text
    requires p != []
  {
    if t == [] then []
    else
      var s := [t[0]] + RightToLeft(t[1..], p, r);
      if p <= s then r + s[|p|..] else s
  }

  /** No proper tail of p starts p or r: a match can neither overlap another match
    nor reach into a replacement. */
  predicate NoOverlap(p: Text, r: Text) {
    forall k :: 1 <= k < |p| ==> !(p[k..] <= p) && !(p[k..] <= r)
  }

  // ----- Left to right

  /** Replacing the leftmost occurrence and going on behind it. */
  lemma ReplaceAllStep(t: Text, p: Text, r: Text)
    requires p != []
    ensures var i := Find(t, p);
            && (i < 0 ==> ReplaceAll(t, p, r) == t && Count(t, p) == 0)
            && (i >= 0 ==> ReplaceAll(t, p, r) == t[..i] + r + ReplaceAll(t[i + |p|..], p, r)
                           && Count(t, p) == 1 + Count(t[i + |p|..], p))
  {
    hide Find, ReplaceAll, Count;
    ReplaceAllAtFind(t, p, r);
    CountAtFind(t, p);
  }

  lemma {:induction false} ReplaceAllAtFind(t: Text, p: Text, r: Text)
    requires p != []
    ensures var i := Find(t, p);
            ReplaceAll(t, p, r) == if i < 0 then t else t[..i] + r + ReplaceAll(t[i + |p|..], p, r)
    decreases |t|
  {
    if t != [] && !(p <= t) {
      ReplaceAllAtFind(t[1..], p, r);
      FindLater(t, p);
      ReplaceAllLater(t, p, r);
      hide Find, ReplaceAll, MatchesAt;
      var i := Find(t[1..], p);
      if i >= 0 {
        PrependToSplit(t, |p|, i, r, ReplaceAll(t[i + 1 + |p|..], p, r));
      } else {
        assert [t[0]] + t[1..] == t;
      }
    } else {
      assert t[..0] + r == r;
    }
  }

  lemma {:induction false} CountAtFind(t: Text, p: Text)
    requires p != []
    ensures var i := Find(t, p);
            Count(t, p) == if i < 0 then 0 else 1 + Count(t[i + |p|..], p)
    decreases |t|
  {
    hide Find;
    if t == [] {
      FindFirst(t, p);
    } else if p <= t {
      hide Count;
      FindFirst(t, p);
      CountUnfolds(t, p);
    } else {
      hide Count;
      CountAtFind(t[1..], p);
      FindLater(t, p);
      CountUnfolds(t, p);
      var i := Find(t[1..], p);
      if i >= 0 {
        TailOfTail(t, i + 1 + |p|);
      }
    }
  }

  lemma FindFirst(t: Text, p: Text)
    requires p != [] && (t == [] || p <= t)
    ensures Find(t, p) == if t == [] then -1 else 0
  {}

  lemma FindLater(t: Text, p: Text)
    requires t != [] && !(p <= t)
    ensures Find(t, p) == if Find(t[1..], p) < 0 then -1 else Find(t[1..], p) + 1
  {}

  lemma ReplaceAllLater(t: Text, p: Text, r: Text)
    requires p != [] && t != [] && !(p <= t)
    ensures ReplaceAll(t, p, r) == [t[0]] + ReplaceAll(t[1..], p, r)
  {}

  lemma PrependToSplit(t: Text, n: nat, i: nat, r: Text, x: Text)
    requires i + 1 + n <= |t|
    ensures t[1..][i + n..] == t[i + 1 + n..]
    ensures [t[0]] + (t[1..][..i] + r + x) == t[..i + 1] + r + x
  {
    assert [t[0]] + t[1..][..i] == t[..i + 1];
    Prepend(t[0], t[1..][..i], r, x);
  }

  lemma Prepend(c: char, a: Text, b: Text, d: Text)
    ensures [c] + (a + b + d) == [c] + a + b + d
  {}

  lemma {:induction false} ReplaceAllLength(t: Text, p: Text, r: Text)
    requires p != []
    ensures |ReplaceAll(t, p, r)| == |t| + Count(t, p) * (|r| - |p|)
    decreases |t|
  {
    if t != [] {
      if p <= t {
        ReplaceAllLength(t[|p|..], p, r);
        Distribute(Count(t[|p|..], p), |r| - |p|);
      } else {
        ReplaceAllLength(t[1..], p, r);
      }
    }
  }

  lemma Distribute(c: int, d: int)
    ensures (1 + c) * d == d + c * d
  {}

  lemma {:induction false} CountBound(t: Text, p: Text)
    requires p != []
    ensures Count(t, p) * |p| <= |t|
    decreases |t|
  {
    if t != [] {
      if p <= t {
        CountBound(t[|p|..], p);
        Distribute(Count(t[|p|..], p), |p|);
      } else {
        CountBound(t[1..], p);
      }
    }
  }

  // ----- Right to left

  lemma {:induction false} RightToLeftGrows(t: Text, p: Text, r: Text)
    requires p != [] && |p| <= |r|
    ensures |RightToLeft(t, p, r)| >= |t|
  {
    if t != [] {
      RightToLeftGrows(t[1..], p, r);
    }
  }

  lemma {:induction false} RightToLeftTail(t: Text, p: Text, r: Text, j: nat)
    requires p != [] && |p| <= |r| && j <= |t|
    ensures j + |RightToLeft(t[j..], p, r)| <= |RightToLeft(t, p, r)|
  {
    if j > 0 {
      RightToLeftTail(t[1..], p, r, j - 1);
      assert t[1..][j - 1..] == t[j..];
    }
  }

  lemma RightToLeftUnfolds(t: Text, p: Text, r: Text, s: Text)
    requires p != [] && t != []
    requires s == [t[0]] + RightToLeft(t[1..], p, r)
    ensures RightToLeft(t, p, r) == if p <= s then r + s[|p|..] else s
  {}

  /** Places that do not match what stands to their right stay as they are. */
  lemma {:induction false} RightToLeftSkips(t: Text, p: Text, r: Text, j: nat, k: nat)
    requires p != [] && j <= k <= |t|
    requires var c := t[..k] + RightToLeft(t[k..], p, r);
             forall i :: j <= i < k ==> !MatchesAt(c, p, i)
    ensures RightToLeft(t[j..], p, r) == t[j..k] + RightToLeft(t[k..], p, r)
    decreases k - j
  {
    hide RightToLeft;
    var rest := RightToLeft(t[k..], p, r);
    if j == k {
      assert t[j..k] + rest == rest;
    } else {
      RightToLeftSkips(t, p, r, j + 1, k);
      ConsiderPlace(t, p, r, j, k, rest);
    }
  }

  /** One place j, everything between it and k having been skipped. */
  lemma ConsiderPlace(t: Text, p: Text, r: Text, j: nat, k: nat, rest: Text)
    requires p != [] && j < k <= |t|
    requires RightToLeft(t[j + 1..], p, r) == t[j + 1..k] + rest
    ensures var c := t[..k] + rest;
            RightToLeft(t[j..], p, r) == if MatchesAt(c, p, j) then r + c[j + |p|..] else c[j..]
    ensures (t[..k] + rest)[j..] == t[j..k] + rest
  {
    hide RightToLeft;
    var c := t[..k] + rest;
    var s := t[j..k] + rest;
    assert t[j..][1..] == t[j + 1..];
    assert [t[j]] + (t[j + 1..k] + rest) == s;
    assert c[j..] == s;
    RightToLeftUnfolds(t[j..], p, r, s);
    assert MatchesAt(c, p, j) <==> p <= s by {
      if j + |p| <= |c| { assert c[j..j + |p|] == s[..|p|]; }
    }
    if p <= s {
      assert s[|p|..] == c[j + |p|..];
    }
  }

  /** A place that matches is replaced. */
  lemma RightToLeftTakes(t: Text, p: Text, r: Text, j: nat, k: nat)
    requires p != [] && j < k <= |t|
    requires var c := t[..k] + RightToLeft(t[k..], p, r);
             MatchesAt(c, p, j) && forall i :: j < i < k ==> !MatchesAt(c, p, i)
    ensures var c := t[..k] + RightToLeft(t[k..], p, r);
            t[..j] + RightToLeft(t[j..], p, r) == c[..j] + r + c[j + |p|..]
  {
    hide RightToLeft;
    RightToLeftSkips(t, p, r, j + 1, k);
    var rest := RightToLeft(t[k..], p, r);
    ConsiderPlace(t, p, r, j, k, rest);
    var c := t[..k] + rest;
    assert c[..j] == t[..j];
    assert t[..j] + (r + c[j + |p|..]) == c[..j] + r + c[j + |p|..];
  }

  /** Without a match there is nothing to replace. */
  lemma {:induction false} RightToLeftIdle(t: Text, p: Text, r: Text)
    requires p != [] && Count(t, p) == 0
    ensures RightToLeft(t, p, r) == t
  {
    if t != [] {
      RightToLeftIdle(t[1..], p, r);
      assert [t[0]] + t[1..] == t;
    }
  }

  // ----- When the two agree

  lemma PrefixOfAppend(u: Text, r: Text, x: Text)
    requires |u| <= |r|
    ensures u <= r + x <==> u <= r
  {
    assert (r + x)[..|u|] == r[..|u|];
  }

  lemma PrefixTail(u: Text, c: char, x: Text)
    requires u != []
    ensures u <= [c] + x <==> u[0] == c && u[1..] <= x
  {
    if u[0] == c && u[1..] <= x {
      assert u == [u[0]] + u[1..];
    }
    if u <= [c] + x {
      assert u[1..] == ([c] + x)[1..|u|] == x[..|u| - 1];
    }
  }

  /** A tail of p that shows up at the front after replacing was already there before. */
  lemma {:induction false} NothingNew(t: Text, p: Text, r: Text, j: nat)
    requires NoOverlap(p, r) && 1 <= j < |p| <= |r|
    ensures p[j..] <= RightToLeft(t, p, r) ==> p[j..] <= t
    decreases |t|
  {
    var u := p[j..];
    if t != [] {
      var rest := RightToLeft(t[1..], p, r);
      var s := [t[0]] + rest;
      PrefixOfAppend(u, r, if p <= s then s[|p|..] else []);
      PrefixTail(u, t[0], rest);
      PrefixTail(u, t[0], t[1..]);
      assert t == [t[0]] + t[1..];
      if j + 1 < |p| {
        NothingNew(t[1..], p, r, j + 1);
        assert u[1..] == p[j + 1..];
      } else {
        assert u[1..] == [];
      }
    }
  }

  /** The inside of a match is left alone. */
  lemma {:induction false} TailSkips(p: Text, t: Text, r: Text, k: nat)
    requires NoOverlap(p, r) && 1 <= k <= |p|
    ensures RightToLeft(p[k..] + t, p, r) == p[k..] + RightToLeft(t, p, r)
    decreases |p| - k
  {
    hide RightToLeft;
    var u, rest := p[k..], RightToLeft(t, p, r);
    if k == |p| {
      assert u + t == t && u + rest == rest;
    } else {
      TailSkips(p, t, r, k + 1);
      assert (u + t)[1..] == p[k + 1..] + t && (u + t)[0] == p[k];
      DropFirst(p, k + 1, rest);
      RightToLeftUnfolds(u + t, p, r, u + rest);
      NotAPrefix(p, u, rest);
    }
  }

  lemma NotAPrefix(p: Text, u: Text, x: Text)
    requires |u| <= |p|
    ensures p <= u + x ==> u <= p
  {
    if p <= u + x {
      assert p[..|u|] == (u + x)[..|u|] == u;
    }
  }

  /** Under NoOverlap the order of replacement makes no difference. */
  lemma {:induction false} OrdersAgree(t: Text, p: Text, r: Text)
    requires 1 <= |p| <= |r| && NoOverlap(p, r)
    ensures RightToLeft(t, p, r) == ReplaceAll(t, p, r)
    decreases |t|
  {
    if t != [] {
      if p <= t {
        OrdersAgree(t[|p|..], p, r);
        MatchTaken(t, p, r);
      } else {
        OrdersAgree(t[1..], p, r);
        NoNewMatch(t, p, r);
      }
    }
  }

  lemma TakenAtFront(t: Text, p: Text, r: Text, x: Text)
    requires p != [] && t != [] && [t[0]] + RightToLeft(t[1..], p, r) == p + x
    ensures RightToLeft(t, p, r) == r + x
  {
    hide RightToLeft;
    assert (p + x)[|p|..] == x;
    RightToLeftUnfolds(t, p, r, p + x);
  }

  lemma MatchTaken(t: Text, p: Text, r: Text)
    requires 1 <= |p| <= |r| && NoOverlap(p, r) && p <= t
    ensures RightToLeft(t, p, r) == r + RightToLeft(t[|p|..], p, r)
  {
    hide RightToLeft, NoOverlap;
    var t' := t[|p|..];
    var rest := RightToLeft(t', p, r);
    assert t[1..] == p[1..] + t';
    TailSkips(p, t', r, 1);
    assert [t[0]] + (p[1..] + rest) == p + rest;
    TakenAtFront(t, p, r, rest);
  }

  lemma NoNewMatch(t: Text, p: Text, r: Text)
    requires 1 <= |p| <= |r| && NoOverlap(p, r)
    requires t != [] && !(p <= t)
    ensures !(p <= [t[0]] + RightToLeft(t[1..], p, r))
  {
    PrefixTail(p, t[0], RightToLeft(t[1..], p, r));
    PrefixTail(p, t[0], t[1..]);
    assert t == [t[0]] + t[1..];
    if |p| > 1 {
      NothingNew(t[1..], p, r, 1);
    }
  }

  lemma {:induction false} ShortIsIdle(t: Text, p: Text, r: Text)
    requires |t| < |p|
    ensures RightToLeft(t, p, r) == t && ReplaceAll(t, p, r) == t
  {
    if t != [] {
      ShortIsIdle(t[1..], p, r);
    }
  }

  /** Replacing p inside q + p leaves q alone, or lengthens the text a second time. */
  lemma {:induction false} SecondMatch(q: Text, p: Text, r: Text)
    requires 1 <= |p| < |r|
    ensures var out := RightToLeft(q + p, p, r);
            out == q + r || |out| >= |q| + 2 * |r| - |p|
  {
    if q == [] {
      assert q + p == p;
      ShortIsIdle(p[1..], p, r);
      assert [p[0]] + p[1..] == p;
      assert q + r == r;
    } else {
      SecondMatch(q[1..], p, r);
      assert (q + p)[1..] == q[1..] + p;
      assert [q[0]] + (q[1..] + r) == q + r;
    }
  }

  predicate NulFree(t: Text) {
    forall i :: 0 <= i < |t| ==> t[i] != '\0'
  }

  lemma CountAtMostOne(t: Text, p: Text)
    requires p != [] && |t| < 2 * |p|
    ensures Count(t, p) <= 1
  {
    CountBound(t, p);
    LessThanTwo(Count(t, p), |p|);
  }

  lemma LessThanTwo(c: nat, m: nat)
    requires c * m < 2 * m
    ensures c <= 1
  {
    assert (c - 2) * m == c * m - 2 * m;
    assert c >= 2 ==> (c - 2) * m >= 0;
  }

  lemma ReplaceAllAtMostOne(t: Text, p: Text, r: Text)
    requires 1 <= |p| < |r| && |t| < 2 * |p|
    ensures |ReplaceAll(t, p, r)| <= |t| + |r| - |p|
  {
    CountAtMostOne(t, p);
    ReplaceAllLength(t, p, r);
  }

  /** A tail of p that starts r: a match reaches into the replacement to its right. */
  lemma StraddlingDiffers(p: Text, r: Text, k: nat)
    requires 1 <= k < |p| < |r| && p[k..] <= r
    ensures var t := p[..k] + p;
            |RightToLeft(t, p, r)| > |ReplaceAll(t, p, r)|
  {
    var q := p[..k];
    ReplaceAllAtMostOne(q + p, p, r);
    SecondMatch(q[1..], p, r);
    FirstPlace(q, p, r);
    if RightToLeft(q[1..] + p, p, r) == q[1..] + r {
      Straddles(p, r, k);
      assert [q[0]] + (q[1..] + r) == q + r;
    }
  }

  /** What becomes of the first character of q, once p has been replaced in the rest of q + p. */
  lemma FirstPlace(q: Text, p: Text, r: Text)
    requires p != [] && q != []
    ensures var s := [q[0]] + RightToLeft(q[1..] + p, p, r);
            RightToLeft(q + p, p, r) == if p <= s then r + s[|p|..] else s
  {
    hide RightToLeft;
    assert (q + p)[1..] == q[1..] + p;
    RightToLeftUnfolds(q + p, p, r, [q[0]] + RightToLeft(q[1..] + p, p, r));
  }

  lemma Straddles(p: Text, r: Text, k: nat)
    requires 1 <= k < |p| < |r| && p[k..] <= r
    ensures p <= p[..k] + r
  {
    assert (p[..k] + r)[..|p|] == p[..k] + r[..|p| - k] == p;
  }

  /** Two overlapping matches: the left order takes the left one, the right order the right one. */
  lemma OverlappingDiffers(p: Text, r: Text, k: nat)
    requires 1 <= k < |p| < |r| && p[k..] <= p && !(p[k..] <= r)
    ensures var t := p[..k] + p;
            RightToLeft(t, p, r) != ReplaceAll(t, p, r)
  {
    var q := p[..k];
    var t := q + p;
    var x := t[|p|..];
    assert t[..|p|] == p by {
      assert t[..|p|] == q + p[..|p| - k];
    }
    ShortIsIdle(x, p, r);
    assert ReplaceAll(t, p, r) == r + x;
    SecondMatch(q, p, r);
    TailOfPrefix(p, r, k);
    if RightToLeft(t, p, r) == q + r && q + r == r + x {
      forall i | 0 <= i < |p|
        ensures r[i] == p[i]
      {
        SamePeriod(p, r, x, k, i);
      }
    }
  }

  lemma TailOfPrefix(p: Text, r: Text, k: nat)
    requires k <= |p| <= |r| && p[k..] <= p
    ensures (forall i :: 0 <= i < |p| ==> r[i] == p[i]) ==> p[k..] <= r
  {
    if forall i :: 0 <= i < |p| ==> r[i] == p[i] {
      assert r[..|p|] == p;
      assert p[k..] == r[..|p| - k];
    }
  }

  /** Both p and r repeat their first k characters, so they agree as far as p goes. */
  lemma {:induction false} SamePeriod(p: Text, r: Text, x: Text, k: nat, i: nat)
    requires 1 <= k < |p| < |r| && p[k..] <= p && p[..k] + r == r + x
    requires i < |p|
    ensures r[i] == p[i]
    decreases i
  {
    assert (p[..k] + r)[i] == (r + x)[i] == r[i];
    if i >= k {
      SamePeriod(p, r, x, k, i - k);
      assert p[k..][i - k] == p[i - k];
    }
  }

  /** When the replacement is longer, replacing from the right gives the leftmost non-overlapping replacement
    of every text if and only if no match of the search string can overlap another or a replacement. */
  lemma OrdersAgreeExactly(p: Text, r: Text)
    requires 1 <= |p| < |r| && NulFree(p)
    ensures NoOverlap(p, r) <==> forall t :: NulFree(t) ==> RightToLeft(t, p, r) == ReplaceAll(t, p, r)
  {
    if NoOverlap(p, r) {
      forall t ensures RightToLeft(t, p, r) == ReplaceAll(t, p, r) {
        OrdersAgree(t, p, r);
      }
    } else {
      var k :| 1 <= k < |p| && (p[k..] <= p || p[k..] <= r);
      if p[k..] <= r {
        StraddlingDiffers(p, r, k);
      } else {
        OverlappingDiffers(p, r, k);
      }
      assert NulFree(p[..k] + p);
    }
  }

  // ----- When the counted size is enough

  /** No proper tail of p starts r: a match cannot reach into a replacement. */
  predicate NoStraddle(p: Text, r: Text) {
    forall k :: 1 <= k < |p| ==> !(p[k..] <= r)
  }

  /** A tail of p at the front of the result was there before, and nothing in it has been replaced. */
  lemma {:induction false} TailUntouched(t: Text, p: Text, r: Text, j: nat)
    requires NoStraddle(p, r) && 1 <= j <= |p| <= |r|
    requires p[j..] <= RightToLeft(t, p, r)
    ensures p[j..] <= t && RightToLeft(t, p, r) == p[j..] + RightToLeft(t[|p| - j..], p, r)
    decreases |p| - j
  {
    hide RightToLeft, NoStraddle;
    if j == |p| {
      assert p[j..] == [] && t[0..] == t;
    } else {
      FrontUntouched(t, p, r, j);
      TailUntouched(t[1..], p, r, j + 1);
      assert p[j..] == [t[0]] + p[j + 1..];
      PrependTail(t, p[j + 1..], RightToLeft(t[|p| - j..], p, r));
      assert t[1..][|p| - j - 1..] == t[|p| - j..];
    }
  }

  lemma PrependTail(t: Text, u: Text, x: Text)
    requires t != [] && u <= t[1..]
    ensures [t[0]] + u <= t && [t[0]] + (u + x) == [t[0]] + u + x
  {
    assert t == [t[0]] + t[1..];
  }

  lemma FrontUntouched(t: Text, p: Text, r: Text, j: nat)
    requires NoStraddle(p, r) && 1 <= j < |p| <= |r|
    requires p[j..] <= RightToLeft(t, p, r)
    ensures t != [] && t[0] == p[j] && p[j + 1..] <= RightToLeft(t[1..], p, r)
    ensures RightToLeft(t, p, r) == [t[0]] + RightToLeft(t[1..], p, r)
  {
    var u := p[j..];
    assert u != [] && u[1..] == p[j + 1..];
    if t != [] {
      var s := [t[0]] + RightToLeft(t[1..], p, r);
      RightToLeftUnfolds(t, p, r, s);
      hide RightToLeft;
      PrefixOfAppend(u, r, if p <= s then s[|p|..] else []);
      PrefixTail(u, t[0], RightToLeft(t[1..], p, r));
    }
  }

  /** So a match was there before. */
  lemma {:induction false} MatchUntouched(t: Text, p: Text, r: Text)
    requires NoStraddle(p, r) && 1 <= |p| <= |r| && t != []
    requires p <= [t[0]] + RightToLeft(t[1..], p, r)
    ensures p <= t && RightToLeft(t, p, r) == r + RightToLeft(t[|p|..], p, r)
  {
    hide RightToLeft, NoStraddle;
    FrontAndTail(p, t[0], RightToLeft(t[1..], p, r));
    var x := BehindMatch(t, p, r);
    PrependTail(t, p[1..], x);
    TakenAtFront(t, p, r, x);
  }

  lemma {:induction false} BehindMatch(t: Text, p: Text, r: Text) returns (x: Text)
    requires NoStraddle(p, r) && 1 <= |p| <= |r| && t != []
    requires p[1..] <= RightToLeft(t[1..], p, r)
    ensures p[1..] <= t[1..] && x == RightToLeft(t[|p|..], p, r) && RightToLeft(t[1..], p, r) == p[1..] + x
  {
    hide RightToLeft, NoStraddle;
    TailUntouched(t[1..], p, r, 1);
    TailOfTail(t, |p|);
    x := RightToLeft(t[1..][|p| - 1..], p, r);
  }

  lemma FrontAndTail(u: Text, c: char, x: Text)
    requires u != [] && u <= [c] + x
    ensures u == [c] + u[1..] && u[1..] <= x
  {
    PrefixTail(u, c, x);
  }

  lemma TailOfTail(t: Text, n: nat)
    requires 1 <= n <= |t|
    ensures t[1..][n - 1..] == t[n..]
  {}

  lemma CountUnfolds(t: Text, p: Text)
    requires p != [] && t != []
    ensures Count(t, p) == if p <= t then 1 + Count(t[|p|..], p) else Count(t[1..], p)
  {}

  /** Everything behind the first character of a match that is taken stays as it is. */
  lemma {:induction false} BehindTaken(t: Text, p: Text, r: Text, j: nat)
    requires NoStraddle(p, r) && 1 <= j <= |p| <= |r| && t != []
    requires p <= [t[0]] + RightToLeft(t[1..], p, r)
    ensures p <= t && RightToLeft(t[j..], p, r) == p[j..] + RightToLeft(t[|p|..], p, r)
    decreases j
  {
    hide RightToLeft, NoStraddle;
    MatchUntouched(t, p, r);
    if j == 1 {
      FrontAndTail(p, t[0], RightToLeft(t[1..], p, r));
      var x := BehindMatch(t, p, r);
    } else {
      BehindTaken(t, p, r, j - 1);
      FrontUntouched(t[j - 1..], p, r, j - 1);
      assert t[j - 1..][1..] == t[j..];
      DropFirst(p, j, RightToLeft(t[|p|..], p, r));
      SameRest(t[j - 1], RightToLeft(t[j..], p, r), p[j - 1], p[j..] + RightToLeft(t[|p|..], p, r));
    }
  }

  lemma SameRest(c: char, a: Text, d: char, b: Text)
    requires [c] + a == [d] + b
    ensures a == b
  {
    assert ([c] + a)[1..] == a && ([d] + b)[1..] == b;
  }

  lemma DropFirst(p: Text, j: nat, x: Text)
    requires 1 <= j <= |p|
    ensures p[j - 1..] + x == [p[j - 1]] + (p[j..] + x)
  {
    assert p[j - 1..] == [p[j - 1]] + p[j..];
  }

  /** Inside a match, either nothing is replaced up to its end, or one match is that begins inside it. */
  lemma {:induction false} InsideMatch(t: Text, p: Text, r: Text, i: nat)
    requires NoStraddle(p, r) && 1 <= i <= |p| <= |r| && p <= t
    ensures var x := RightToLeft(t[|p|..], p, r);
            || RightToLeft(t[i..], p, r) == p[i..] + x
            || |RightToLeft(t[i..], p, r)| == |r| - i + |x|
    decreases |p| - i
  {
    hide RightToLeft, NoStraddle;
    var x := RightToLeft(t[|p|..], p, r);
    if i == |p| {
      assert p[i..] + x == x;
    } else {
      var u := t[i..];
      var s := [u[0]] + RightToLeft(u[1..], p, r);
      assert u[1..] == t[i + 1..];
      if p <= s {
        MatchUntouched(u, p, r);
        BehindTaken(u, p, r, |p| - i);
        assert u[|p| - i..] == t[|p|..];
      } else {
        RightToLeftUnfolds(u, p, r, s);
        InsideMatch(t, p, r, i + 1);
        DropFirst(p, i + 1, x);
        assert u[0] == p[i];
      }
    }
  }

  /** A match at the front costs one replacement, of that match or of one that overlaps it. */
  lemma {:induction false} OneReplaced(t: Text, p: Text, r: Text)
    requires NoStraddle(p, r) && 1 <= |p| <= |r| && p <= t
    ensures |RightToLeft(t, p, r)| == |r| + |RightToLeft(t[|p|..], p, r)|
  {
    hide RightToLeft, NoStraddle;
    var s, x := [t[0]] + RightToLeft(t[1..], p, r), RightToLeft(t[|p|..], p, r);
    if p <= s {
      MatchUntouched(t, p, r);
    } else {
      InsideMatch(t, p, r, 1);
      RightToLeftUnfolds(t, p, r, s);
      DropFirst(p, 1, x);
      WholeIsPrefix(p, x);
    }
  }

  lemma WholeIsPrefix(p: Text, x: Text)
    requires p != []
    ensures p[0..] == p && p <= [p[0]] + (p[1..] + x)
  {
    assert [p[0]] + (p[1..] + x) == p + x;
  }

  /** Replacing from the right makes as many replacements as from the left. */
  lemma {:induction false} SameLength(t: Text, p: Text, r: Text)
    requires NoStraddle(p, r) && 1 <= |p| <= |r|
    ensures |RightToLeft(t, p, r)| == |ReplaceAll(t, p, r)|
    decreases |t|
  {
    if t != [] {
      hide NoStraddle;
      var s := [t[0]] + RightToLeft(t[1..], p, r);
      if p <= t {
        OneReplaced(t, p, r);
        SameLength(t[|p|..], p, r);
      } else {
        if p <= s { MatchUntouched(t, p, r); }
        SameLength(t[1..], p, r);
        RightToLeftUnfolds(t, p, r, s);
      }
    }
  }

  /** When the replacement is longer, the work from the right needs exactly the size counted from the left on every
    text if and only if no match can reach into a replacement; otherwise it needs more on some text. */
  lemma SizeSufficesExactly(p: Text, r: Text)
    requires 1 <= |p| < |r| && NulFree(p)
    ensures NoStraddle(p, r) ==> forall t :: |RightToLeft(t, p, r)| == |ReplaceAll(t, p, r)|
    ensures !NoStraddle(p, r) ==> exists t :: NulFree(t) && |RightToLeft(t, p, r)| > |ReplaceAll(t, p, r)|
  {
    if NoStraddle(p, r) {
      forall t
        ensures |RightToLeft(t, p, r)| == |ReplaceAll(t, p, r)|
      {
        SameLength(t, p, r);
      }
    } else {
      var k :| 1 <= k < |p| && p[k..] <= r;
      StraddlingDiffers(p, r, k);
      assert NulFree(p[..k] + p);
    }
  }

  /** "aa" becomes "aaa" in "aaa": four characters are counted and five written. */
  lemma GrowingCanOverrun()
    ensures |ReplaceAll("aaa", "aa", "aaa")| == 4 && |RightToLeft("aaa", "aa", "aaa")| == 5
  {
    var p, r := "aa", "aaa";
    ShortIsIdle("a", p, r);
    assert "aaa"[|p|..] == "a";
    assert "aaa"[1..] == "aa" && "aa"[1..] == "a";
    assert ReplaceAll("aaa", p, r) == "aaa" + ReplaceAll("a", p, r);
    RightToLeftUnfolds("aa", p, r, "aa");
    RightToLeftUnfolds("aaa", p, r, "aaaa");
  }

  /** A text on which the growing replace goes wrong: "aa" becomes "aaa" twice in "aaa". */
  lemma GrowingCanDiffer()
    ensures RightToLeft("aaa", "aa", "aaa") != ReplaceAll("aaa", "aa", "aaa")
  {
    assert "aa"[1..] == "a" <= "aaa";
    assert "aa"[..1] + "aa" == "aaa";
    StraddlingDiffers("aa", "aaa", 1);
  }

  // ----- Many replacements

  /** n times the same character. */
  function Repeat(c: char, n: nat): (t: Text)
    ensures |t| == n && forall i :: 0 <= i < n ==> t[i] == c
  {
    seq(n, i requires 0 <= i < n => c)
  }

  lemma {:induction false} CountRepeated(c: char, n: nat)
    ensures Count(Repeat(c, n), [c]) == n
  {
    if n > 0 {
      var t := Repeat(c, n);
      assert t[1..] == Repeat(c, n - 1);
      assert t[..1] == [c];
      CountUnfolds(t, [c]);
      CountRepeated(c, n - 1);
    }
  }

  /** Replacing each of n equal characters. */
  lemma RepeatedLength(c: char, n: nat, r: Text)
    ensures |ReplaceAll(Repeat(c, n), [c], r)| == n + n * (|r| - 1)
  {
    CountRepeated(c, n);
    ReplaceAllLength(Repeat(c, n), [c], r);
  }
}

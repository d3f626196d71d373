/** The C library routines that the String class calls, on arrays of characters. */
module CStrings {
  import opened TextReplace

  /** The NUL-terminated text that starts at a place of a buffer. */
  function TextAt(s: seq<char>, from: nat): Text
    decreases |s| - from
  {
    if from >= |s| || s[from] == '\0' then [] else [s[from]] + TextAt(s, from + 1)
  }

  lemma {:induction false} TextAtIs(s: seq<char>, from: nat, n: nat)
    requires from <= n < |s| && s[n] == '\0'
    requires forall i :: from <= i < n ==> s[i] != '\0'
    ensures TextAt(s, from) == s[from..n]
    decreases n - from
  {
    if from < n {
      TextAtIs(s, from + 1, n);
      assert s[from..n] == [s[from]] + s[from + 1..n];
    }
  }

  /** strstr, as a place in the buffer: the leftmost occurrence at or behind `from`, or -1. */
  function StrStr(s: seq<char>, from: nat, p: Text): int {
    var i := Find(TextAt(s, from), p);
    if i < 0 then -1 else from + i
  }

  /** strrchr: the last occurrence of c in the text at the start of the buffer, or -1;
    the terminating NUL counts as part of the text. */
  function StrRChr(s: seq<char>, c: char): int {
    var t := TextAt(s, 0);
    if c == '\0' then |t| else LastChar(t, c)
  }

  function LastChar(t: Text, c: char): (i: int)
    ensures -1 <= i < |t|
    ensures i >= 0 ==> t[i] == c
    ensures forall j :: i < j < |t| ==> t[j] != c
  {
    if t == [] then -1 else if t[|t| - 1] == c then |t| - 1 else LastChar(t[..|t| - 1], c)
  }

  /** The buffer s with x written at place `to`. */
  function Splice(s: seq<char>, to: nat, x: seq<char>): (r: seq<char>)
    requires to + |x| <= |s|
    ensures |r| == |s|
  {
    s[..to] + x + s[to + |x|..]
  }

  lemma SpliceNext(s: seq<char>, to: nat, x: seq<char>, i: nat)
    requires to + |x| <= |s| && i < |x|
    ensures Splice(s, to, x[..i])[to + i := x[i]] == Splice(s, to, x[..i + 1])
  {
    assert x[..i + 1] == x[..i] + [x[i]];
  }

  lemma SpliceAll(s: seq<char>, to: nat, x: seq<char>)
    requires to + |x| <= |s|
    ensures Splice(s, to, x[..0]) == s && x[..|x|] == x
  {}

  /** What the copy has not reached yet still reads as before. */
  lemma SpliceReads(s: seq<char>, to: nat, x: seq<char>, k: nat)
    requires to + |x| <= |s| && k < |s|
    ensures k < to || to + |x| <= k ==> Splice(s, to, x)[k] == s[k]
  {}

  /** memcpy from another buffer. */
  method MemCpy(dst: array<char>, to: nat, src: array<char>, from: nat, n: nat)
    requires dst != src && to + n <= dst.Length && from + n <= src.Length
    modifies dst
    ensures dst[..] == Splice(old(dst[..]), to, src[from..from + n])
  {
    hide Splice;
    ghost var s, x := dst[..], src[from..from + n];
    SpliceAll(s, to, x);
    var i := 0;
    while i < n
      invariant i <= n
      invariant dst[..] == Splice(s, to, x[..i])
    {
      SpliceNext(s, to, x, i);
      dst[to + i] := src[from + i];
      i := i + 1;
    }
  }

  /** memcpy within a buffer, bytes being copied upwards from the lowest: right when the target
    lies no higher than the source, or beyond it. */
  method MemCpyWithin(b: array<char>, to: nat, from: nat, n: nat)
    requires to <= from || from + n <= to
    requires to + n <= b.Length && from + n <= b.Length
    modifies b
    ensures b[..] == Splice(old(b[..]), to, old(b[from..from + n]))
  {
    hide Splice;
    ghost var s, x := b[..], b[from..from + n];
    SpliceAll(s, to, x);
    var i := 0;
    while i < n
      invariant i <= n
      invariant b[..] == Splice(s, to, x[..i])
    {
      SpliceNext(s, to, x, i);
      SpliceReads(s, to, x[..i], from + i);
      assert b[..][from + i] == s[from + i];
      b[to + i] := b[from + i];
      i := i + 1;
    }
  }

  /** memmove: as if through a temporary copy. */
  method MemMove(b: array<char>, to: nat, from: nat, n: nat)
    requires to + n <= b.Length && from + n <= b.Length
    modifies b
    ensures b[..] == Splice(old(b[..]), to, old(b[from..from + n]))
  {
    forall i | 0 <= i < n {
      b[to + i] := b[from + i];
    }
  }

  /** strcpy within a buffer, to a place no higher: copies upwards through the first NUL. */
  method StrCpyDown(b: array<char>, to: nat, from: nat, ghost n: nat)
    requires to <= from <= n < b.Length && b[n] == '\0'
    requires forall i :: from <= i < n ==> b[i] != '\0'
    modifies b
    ensures b[..] == Splice(old(b[..]), to, old(b[from..n + 1]))
  {
    hide Splice;
    ghost var s, x := b[..], b[from..n + 1];
    SpliceAll(s, to, x);
    var i := 0;
    while true
      invariant from + i <= n
      invariant b[..] == Splice(s, to, x[..i])
      decreases n - from - i
    {
      SpliceNext(s, to, x, i);
      SpliceReads(s, to, x[..i], from + i);
      assert b[..][from + i] == s[from + i] == x[i];
      var c := b[from + i];
      b[to + i] := c;
      i := i + 1;
      if c == '\0' {
        break;
      }
    }
  }

  /** strcpy from another buffer. */
  method StrCpy(dst: array<char>, to: nat, src: array<char>, from: nat, ghost n: nat)
    requires dst != src && from <= n < src.Length && src[n] == '\0'
    requires forall i :: from <= i < n ==> src[i] != '\0'
    requires to + (n - from) < dst.Length
    modifies dst
    ensures dst[..] == Splice(old(dst[..]), to, src[from..n + 1])
  {
    hide Splice;
    ghost var s, x := dst[..], src[from..n + 1];
    SpliceAll(s, to, x);
    var i := 0;
    while true
      invariant from + i <= n
      invariant dst[..] == Splice(s, to, x[..i])
      decreases n - from - i
    {
      SpliceNext(s, to, x, i);
      assert src[from + i] == x[i];
      var c := src[from + i];
      dst[to + i] := c;
      i := i + 1;
      if c == '\0' {
        break;
      }
    }
  }
}

/** The String class: a growable NUL-terminated buffer whose replace works in place. */
module WStrings {
  import opened TextReplace
  import opened CStrings

  /** Of the replacement of p by r in t, the part `done` is finished and u is still unread. */
  predicate Progress(t: Text, p: Text, r: Text, done: Text, u: Text) {
    && p != [] && NulFree(done) && NulFree(u) && NulFree(r)
    && ReplaceAll(t, p, r) == done + ReplaceAll(u, p, r)
  }

  lemma ProgressStarts(t: Text, p: Text, r: Text)
    requires p != [] && NulFree(t) && NulFree(r)
    ensures Progress(t, p, r, [], t)
  {
    assert [] + ReplaceAll(t, p, r) == ReplaceAll(t, p, r);
  }

  /** One replacement moves the boundary behind the leftmost match in u. */
  lemma {:induction false} ProgressStep(t: Text, p: Text, r: Text, done: Text, u: Text)
    requires Progress(t, p, r, done, u)
    ensures var i := Find(u, p);
            && (i < 0 ==> ReplaceAll(t, p, r) == done + u && NulFree(done + u))
            && (i >= 0 ==> i + |p| <= |u| && Progress(t, p, r, done + u[..i] + r, u[i + |p|..]))
  {
    hide ReplaceAll, NulFree;
    var i := Find(u, p);
    LeftStep(done, u, p, r);
    if i < 0 {
      NulFreeParts(done, u, []);
      assert done + u + [] == done + u;
    } else {
      TailIsNulFree(u, i);
      TailIsNulFree(u, i + |p|);
      NulFreeParts(done, u[..i], r);
    }
  }

  lemma {:induction false} LeftStep(done: Text, u: Text, p: Text, r: Text)
    requires p != []
    ensures var i := Find(u, p);
            && (i < 0 ==> ReplaceAll(u, p, r) == u)
            && (i >= 0 ==> i + |p| <= |u| &&
                           done + ReplaceAll(u, p, r) == (done + u[..i] + r) + ReplaceAll(u[i + |p|..], p, r))
  {
    ReplaceAllStep(u, p, r);
    hide ReplaceAll;
  }

  /** The buffer holds the finished part, a gap, the unread text, and the rest from the NUL on. */
  predicate Laid(s: seq<char>, done: Text, gap: seq<char>, u: Text, rest: seq<char>) {
    s == done + gap + u + rest && NulFree(u) && rest != [] && rest[0] == '\0'
  }

  lemma UnreadText(s: seq<char>, done: Text, gap: seq<char>, u: Text, rest: seq<char>)
    requires Laid(s, done, gap, u, rest)
    ensures TextAt(s, |done| + |gap|) == u
  {
    var from := |done| + |gap|;
    assert forall i :: 0 <= i < |u| ==> s[from + i] == u[i];
    TextAtIs(s, from, from + |u|);
    assert s[from..from + |u|] == u;
  }

  /** strstr from the unread text on finds the leftmost match in it. */
  lemma FoundUnread(s: seq<char>, done: Text, gap: seq<char>, u: Text, rest: seq<char>, p: Text)
    requires Laid(s, done, gap, u, rest)
    ensures var i := Find(u, p); StrStr(s, |done| + |gap|, p) == if i < 0 then -1 else |done| + |gap| + i
  {
    hide Laid, Find, TextAt;
    UnreadText(s, done, gap, u, rest);
  }

  lemma LaidOut(s: seq<char>, u: Text, rest: seq<char>)
    requires s == u + rest && NulFree(u) && rest != [] && rest[0] == '\0'
    ensures Laid(s, [], [], u, rest)
  {
    assert [] + [] + u + rest == u + rest;
  }

  /** With no gap between them, the finished and the unread part make up the text. */
  lemma LaidText(s: seq<char>, done: Text, u: Text, rest: seq<char>)
    requires Laid(s, done, [], u, rest)
    ensures |s| == |done| + |u| + |rest| && s[..|done| + |u|] == done + u && s[|done| + |u|] == '\0'
  {}

  lemma LaidLength(s: seq<char>, done: Text, gap: seq<char>, u: Text, rest: seq<char>)
    requires Laid(s, done, gap, u, rest)
    ensures |s| == |done| + |gap| + |u| + |rest|
  {}

  /** Writing r over an equally long match at place i of the unread text. */
  lemma LaidReplaced(s: seq<char>, done: Text, u: Text, rest: seq<char>, i: nat, r: Text)
    requires Laid(s, done, [], u, rest) && i + |r| <= |u|
    ensures |done| + i + |r| <= |s|
    ensures Laid(Splice(s, |done| + i, r), done + u[..i] + r, [], u[i + |r|..], rest)
  {
    TailIsNulFree(u, i + |r|);
  }

  /** Writing the next i unread characters and then r behind the finished part, which lies no further
    right than the unread text, touches nothing beyond the match at place i. */
  lemma SpliceDown(done: Text, gap: seq<char>, u: Text, rest: seq<char>, i: nat, p: Text, r: Text)
    requires i + |p| <= |u| && |r| <= |p|
    ensures var s := Splice(done + gap + u + rest, |done|, u[..i]);
            var gap' := (gap + u)[i + |r|..|gap| + i + |p|];
            Splice(s, |done| + i, r) == (done + u[..i] + r) + gap' + u[i + |p|..] + rest
  {
    hide Splice;
    var g, a, end := gap + u, done + u[..i], |gap| + i + |p|;
    BehindGap(gap, u, i + |p|);
    Regroup(done, gap, u, rest);
    InThree(g, i, i + |r|, end);
    SpliceAt(done, g, rest, i, u[..i]);
    SpliceAt(a, g[i..], rest, |r|, r);
    assert g[i..][|r|..] == g[i + |r|..];
    assert a + r + (g[i + |r|..end] + u[i + |p|..] + rest) == a + r + g[i + |r|..end] + u[i + |p|..] + rest;
  }

  lemma BehindGap(gap: seq<char>, u: Text, k: nat)
    requires k <= |u|
    ensures (gap + u)[|gap| + k..] == u[k..]
  {}

  lemma Regroup(done: Text, gap: seq<char>, u: Text, rest: seq<char>)
    ensures done + gap + u + rest == done + (gap + u + rest)
  {}

  lemma InThree(g: seq<char>, i: nat, j: nat, k: nat)
    requires i <= j <= k <= |g|
    ensures g[j..] == g[j..k] + g[k..]
  {}

  /** Writing x over the first n characters behind a. */
  lemma SpliceAt(a: seq<char>, g: seq<char>, rest: seq<char>, n: nat, x: seq<char>)
    requires |x| == n <= |g|
    ensures Splice(a + (g + rest), |a|, x) == a + x + (g[n..] + rest)
  {
    assert a + (g + rest) == a + g[..n] + (g[n..] + rest);
    SpliceMiddle(a, g[..n], g[n..] + rest, x);
  }

  lemma SpliceMiddle(a: seq<char>, b: seq<char>, c: seq<char>, x: seq<char>)
    requires |b| == |x|
    ensures Splice(a + b + c, |a|, x) == a + x + c
  {}

  lemma SpliceAppend(s: seq<char>, t: Text, x: Text)
    requires |t| + |x| < |s| && s[..|t|] == t
    ensures var n := |t| + |x|;
            && Splice(s, |t|, x)[n := '\0'] == Splice(s, |t|, x + ['\0'])
            && Splice(s, |t|, x + ['\0'])[..n] == t + x
            && Splice(s, |t|, x + ['\0'])[n] == '\0'
  {}

  /** Opening room for r behind the match at place j, ending the text anew, then writing r at j. */
  lemma SpliceUp(s: seq<char>, t: Text, j: nat, m: nat, r: Text)
    requires j + m <= |t| < |s| && s[..|t|] == t
    requires m <= |r| && |t| + |r| - m < |s|
    ensures var n := |t| + |r| - m;
            var s' := Splice(Splice(s, j + |r|, t[j + m..])[n := '\0'], j, r);
            s'[..n] == t[..j] + r + t[j + m..] && s'[n] == '\0'
  {
    var n := |t| + |r| - m;
    var s1 := Splice(s, j + |r|, t[j + m..]);
    assert s1[..j] == t[..j];
    assert s1[j + |r|..n] == t[j + m..];
    var s2 := s1[n := '\0'];
    assert s2[..j] == t[..j] && s2[j + |r|..n] == t[j + m..];
  }

  lemma SpliceTail(s: seq<char>, t: Text, to: nat, from: nat)
    requires to <= |t| && from <= |t| < |s| && to + |t| - from < |s| && s[..|t|] == t
    ensures Splice(s, to, t[from..])[..to + |t| - from] == t[..to] + t[from..]
  {}

  lemma SpliceToFront(s: seq<char>, x: Text)
    requires |x| <= |s|
    ensures Splice(s, 0, x)[..|x|] == x
  {}

  lemma SpliceEnd(done: Text, gap: seq<char>, u: Text, rest: seq<char>)
    requires rest != []
    ensures Splice(done + gap + u + rest, |done|, u + [rest[0]])[..|done| + |u|] == done + u
    ensures Splice(done + gap + u + rest, |done|, u + [rest[0]])[|done| + |u|] == rest[0]
  {}

  lemma EmptyIsNulFree()
    ensures NulFree([])
  {}

  lemma TailIsNulFree(t: Text, i: nat)
    requires NulFree(t) && i <= |t|
    ensures NulFree(t[i..]) && NulFree(t[..i])
  {}

  lemma NulFreeParts(a: Text, b: Text, c: Text)
    requires NulFree(a) && NulFree(b) && NulFree(c)
    ensures NulFree(a + b + c)
  {}

  lemma ReplacedIsNulFree(t: Text, j: nat, from: nat, r: Text)
    requires j <= |t| && from <= |t| && NulFree(t) && NulFree(r)
    ensures NulFree(t[..j] + r + t[from..])
  {
    TailIsNulFree(t, j);
    TailIsNulFree(t, from);
    NulFreeParts(t[..j], r, t[from..]);
  }

  /** i is the greatest place no higher than `from` where p occurs in t, or -1 if there is none. */
  predicate IsLastMatch(t: Text, p: Text, from: int, i: int) {
    && -1 <= i <= from
    && (i >= 0 ==> MatchesAt(t, p, i))
    && (forall j :: i < j <= from ==> !MatchesAt(t, p, j))
  }

  lemma MatchInTail(t: Text, p: Text, q: nat)
    requires q <= |t|
    ensures forall j :: q <= j ==> (MatchesAt(t, p, j) <==> MatchesAt(t[q..], p, j - q))
  {
    forall j | q <= j
      ensures MatchesAt(t, p, j) <==> MatchesAt(t[q..], p, j - q)
    {
      if j + |p| <= |t| {
        assert t[j..j + |p|] == t[q..][j - q..j - q + |p|];
      }
    }
  }

  /** What strstr finds in a tail of the text, said of the whole text. */
  lemma StrStrFinds(s: seq<char>, t: Text, p: Text, q: nat)
    requires q <= |t| && TextAt(s, q) == t[q..]
    ensures var i := StrStr(s, q, p);
            && (i < 0 ==> i == -1 && forall j :: q <= j ==> !MatchesAt(t, p, j))
            && (i >= 0 ==> q <= i && MatchesAt(t, p, i) && forall j :: q <= j < i ==> !MatchesAt(t, p, j))
  {
    MatchInTail(t, p, q);
    assert StrStr(s, q, p) == if Find(t[q..], p) < 0 then -1 else q + Find(t[q..], p);
    hide TextAt, StrStr, MatchesAt;
    var i := Find(t[q..], p);
    if i < 0 {
      forall j | q <= j ensures !MatchesAt(t, p, j) { assert !MatchesAt(t[q..], p, j - q); }
    } else {
      assert MatchesAt(t[q..], p, q + i - q);
      forall j | q <= j < q + i ensures !MatchesAt(t, p, j) { assert !MatchesAt(t[q..], p, j - q); }
    }
  }

  /** Lengths and places are 32-bit unsigned numbers. */
  const WORD: nat := 0x1_0000_0000

  /** No block of memory reaches 2^31 bytes. */
  const BLOCK_LIMIT: nat := 0x8000_0000

  /** The bytes that realloc is asked for: room for the NUL is added in 32 bits. */
  function BytesFor(maxStrLen: nat): nat {
    (maxStrLen + 1) % WORD
  }

  /** realloc can succeed, and does. */
  predicate Grants(maxStrLen: nat, granted: bool) {
    granted && BytesFor(maxStrLen) < BLOCK_LIMIT
  }

  /** The length that remove computes, every sum and difference wrapping around. */
  function LengthAfterRemove(len: nat, index: nat, count: nat): nat {
    var count := if (index + count) % WORD > len then (len - index) % WORD else count;
    (len - count) % WORD
  }

  /** It is the right length if and only if the end of the removed range does not wrap around. */
  lemma RemoveLength(len: nat, index: nat, count: nat)
    requires index < len < WORD && 0 < count < WORD
    ensures LengthAfterRemove(len, index, count) == (if index + count > len then index else len - count)
       <==> index + count < WORD
  {
    if index + count >= WORD {
      assert (index + count) % WORD == index + count - WORD;
      assert count > len ==> (len - count) % WORD == len - count + WORD;
    }
  }

  /** Where the removed range ends, as 32 bits say it. */
  function WrappedEnd(index: nat, count: nat): nat {
    (index + count) % WORD
  }

  lemma EmptyRange(index: nat)
    requires index < WORD
    ensures WrappedEnd(index, 0) == index
  {}

  /** What remove computes, once it has seen that there is something to remove. */
  lemma WrappedLength(len: nat, index: nat, count: nat)
    requires index < len < WORD && 0 < count < WORD
    ensures var end := WrappedEnd(index, count);
            && (index + count < WORD ==>
                  end == index + count &&
                  LengthAfterRemove(len, index, count) == index + if end > len then 0 else len - end)
            && (index + count >= WORD && len + WORD - count < WORD ==>
                  end < len && LengthAfterRemove(len, index, count) == len + WORD - count == index + len - end)
  {
    if index + count >= WORD {
      assert (index + count) % WORD == index + count - WORD;
    }
  }

  /** Removing 2^32 - 1 characters from place 1 of a text of three makes it longer. */
  lemma RemoveCanLengthen()
    ensures LengthAfterRemove(3, 1, 0xFFFF_FFFF) == 4
  {}

  predicate IsSpace(c: char) {
    c == ' ' || 9 <= c as int <= 13
  }

  /** u is t without the white space at its ends, and it lies at place i. */
  predicate IsTrimmed(t: Text, u: Text, i: nat) {
    && i + |u| <= |t| && t[i..i + |u|] == u
    && (forall k :: 0 <= k < |t| && !(i <= k < i + |u|) ==> IsSpace(t[k]))
    && (u != [] ==> !IsSpace(u[0]) && !IsSpace(u[|u| - 1]))
  }

  lemma TrimmedRange(t: Text, begin: nat, end: int)
    requires begin <= |t| && begin - 1 <= end < |t|
    requires forall k :: 0 <= k < begin || end < k < |t| ==> IsSpace(t[k])
    requires begin <= end ==> !IsSpace(t[begin]) && !IsSpace(t[end])
    ensures IsTrimmed(t, t[begin..end + 1], begin)
  {}

  /** Tab, line feed, vertical tab, form feed, carriage return and space. */
  const BLANKS: set<char> := {'\t', '\n', '\U{000B}', '\U{000C}', '\r', ' '}

  lemma SpacesAreBlanks(c: char)
    ensures IsSpace(c) <==> c in BLANKS
  {}

  predicate AllBlank(t: Text) {
    forall i :: 0 <= i < |t| ==> t[i] in BLANKS
  }

  /** Neither starts nor ends with a blank. */
  predicate Tight(t: Text) {
    t != [] ==> t[0] !in BLANKS && t[|t| - 1] !in BLANKS
  }

  /** Blanks, a text that neither starts nor ends with one, and blanks again: the text without them is that one. */
  lemma TrimmedIsMiddle(a: Text, u: Text, b: Text, v: Text, i: nat)
    requires AllBlank(a) && Tight(u) && AllBlank(b)
    requires IsTrimmed(a + u + b, v, i)
    ensures v == u
  {
    var t := a + u + b;
    assert IsTrimmed(t, u, |a|) by {
      assert t[|a|..|a| + |u|] == u;
      forall k | 0 <= k < |t| && !(|a| <= k < |a| + |u|)
        ensures IsSpace(t[k])
      {
        assert t[k] == if k < |a| then a[k] else b[k - |a| - |u|];
        SpacesAreBlanks(t[k]);
      }
      if u != [] {
        SpacesAreBlanks(u[0]);
        SpacesAreBlanks(u[|u| - 1]);
      }
    }
    TrimmedIsUnique(t, u, |a|, v, i);
  }

  /** There is only one such text. */
  lemma TrimmedIsUnique(t: Text, u: Text, i: nat, v: Text, j: nat)
    requires IsTrimmed(t, u, i) && IsTrimmed(t, v, j)
    ensures u == v
  {
    if u != [] {
      assert !IsSpace(t[i]) && !IsSpace(t[i + |u| - 1]);
    }
    if v != [] {
      assert !IsSpace(t[j]) && !IsSpace(t[j + |v| - 1]);
    }
  }

  /** The size that a growing replace counts in advance, in 32 bits. */
  function CountedSize(t: Text, p: Text, r: Text): nat
    requires p != []
  {
    |ReplaceAll(t, p, r)| % WORD
  }

  /** A growing replace finds nothing to do, or is refused the memory. */
  predicate GivesUp(t: Text, p: Text, r: Text, capacity: nat, granted: bool)
    requires p != []
  {
    var size := CountedSize(t, p, r);
    size == |t| || (size > capacity && !Grants(size, granted))
  }

  /** A growing replace does not ask for a block of no bytes, and what it writes stays in the buffer it has by
    then. */
  predicate StaysSound(t: Text, p: Text, r: Text, capacity: nat, granted: bool)
    requires p != []
  {
    var size, out := CountedSize(t, p, r), |RightToLeft(t, p, r)|;
    && (size > capacity && size != |t| ==> size < WORD - 1)
    && (GivesUp(t, p, r, capacity, granted) || out <= capacity || (size > capacity && out <= size))
  }

  /** When no match can reach into a replacement, that is so if and only if the length of the result fits, or the
    replace gives up. */
  lemma SoundExactly(t: Text, p: Text, r: Text, capacity: nat, granted: bool)
    requires 1 <= |p| < |r| && NoStraddle(p, r) && |t| <= capacity < BLOCK_LIMIT
    ensures var n := |ReplaceAll(t, p, r)|;
            StaysSound(t, p, r, capacity, granted) <==>
            n < WORD - 1 || (n != WORD - 1 && n % WORD != WORD - 1 && GivesUp(t, p, r, capacity, granted))
  {
    hide RightToLeft, ReplaceAll, NoStraddle;
    SameLength(t, p, r);
    var n := |ReplaceAll(t, p, r)|;
    SmallMod(n);
  }

  lemma SmallMod(n: nat)
    ensures n < WORD ==> n % WORD == n
    ensures n >= WORD ==> n % WORD < n
  {}

  /** 65536 times "a" becomes 65538 characters: all lengths are short, no match can overlap anything, and the size
    counted is 131072. The first replacement already needs more. */
  lemma SizeCanWrap()
    ensures var t, r := Repeat('a', 65536), Repeat('b', 65538);
            && NoOverlap(['a'], r) && CountedSize(t, ['a'], r) == 131072
            && !StaysSound(t, ['a'], r, 65536, true)
  {
    WrapsAround(65536, Repeat('a', 65536), Repeat('b', 65538));
  }

  lemma WrapsAround(n: nat, t: Text, r: Text)
    requires n == 65536 && t == Repeat('a', n) && |r| == n + 2
    ensures NoOverlap(['a'], r) && CountedSize(t, ['a'], r) == 131072 && !StaysSound(t, ['a'], r, n, true)
  {
    RepeatedLength('a', n, r);
    hide RightToLeft, ReplaceAll, Repeat, StaysSound;
    assert |ReplaceAll(t, ['a'], r)| == WORD + 131072;
    SoundExactly(t, ['a'], r, n, true);
  }

  /** With one character less the size wraps to the length there was, and nothing is replaced. */
  lemma WrapCanHideMatches()
    ensures var t, r := Repeat('a', 65536), Repeat('b', 65537);
            && Count(t, ['a']) == 65536 && CountedSize(t, ['a'], r) == |t|
            && GivesUp(t, ['a'], r, 65536, true)
  {
    CountRepeated('a', 65536);
    RepeatedLength('a', 65536, Repeat('b', 65537));
  }

  /** Where the characters to append come from. */
  datatype Source = Null | Own(offset: nat) | Foreign(chars: array<char>, offset: nat)

  class WString {
    var buffer: array?<char>
    var capacity: nat
    var len: nat

    /** Without a buffer the text is empty; with one there is room for capacity characters and the NUL,
      which stands at len and nowhere before. */
    ghost predicate Valid()
      reads this, buffer
    {
      && (buffer == null ==> capacity == 0 && len == 0)
      && (buffer != null ==>
            && buffer.Length == capacity + 1 < BLOCK_LIMIT
            && len <= capacity
            && buffer[len] == '\0'
            && NulFree(buffer[..len]))
    }

    ghost function Text(): Text
      requires Valid()
      reads this, buffer
    {
      if buffer == null then [] else buffer[..len]
    }

    constructor ()
      ensures Valid() && Text() == [] && buffer == null
    {
      buffer, capacity, len := null, 0, 0;
    }

    lemma TextIsNulFree()
      requires Valid()
      ensures NulFree(Text())
    {}

    lemma TextInBuffer()
      requires Valid() && buffer != null
      ensures TextAt(buffer[..], 0) == Text()
    {
      TextAtIs(buffer[..], 0, len);
    }

    /** realloc, which `granted` says succeeds unless the block is too large: the old bytes are kept as far as they
      fit. For a block of no bytes it frees the old one, whatever it answers; freed memory has no length here. */
    method ChangeBuffer(maxStrLen: nat, granted: bool) returns (ok: bool)
      requires Valid() && capacity <= maxStrLen < WORD
      modifies this
      ensures ok == Grants(maxStrLen, granted)
      ensures buffer == old(buffer) || fresh(buffer)
      ensures !ok && (maxStrLen < WORD - 1 || old(buffer) == null) ==> unchanged(this)
      ensures !ok ==> capacity == old(capacity)
      ensures ok ==> fresh(buffer) && buffer.Length == BytesFor(maxStrLen) && capacity == maxStrLen && len == old(len)
      ensures ok && maxStrLen < WORD - 1 && old(buffer) != null ==> Valid() && Text() == old(Text())
      ensures maxStrLen == WORD - 1 && (ok || old(buffer) != null) ==> buffer != null && buffer.Length == 0 && !Valid()
    {
      var bytes := BytesFor(maxStrLen);
      ok := Grants(maxStrLen, granted);
      if ok {
        var newbuffer := new char[bytes];
        if buffer != null && bytes != 0 {
          MemCpy(newbuffer, 0, buffer, 0, buffer.Length);
          assert newbuffer[..len] == buffer[..len];
          assert newbuffer[..][len] == buffer[len];
        }
        buffer := newbuffer;
        capacity := maxStrLen;
      } else if bytes == 0 && buffer != null {
        buffer := new char[0];
      }
    }

    /** reserve. In a block of no bytes there is no room for the NUL either. */
    method Reserve(size: nat, granted: bool) returns (ok: bool)
      requires Valid() && size < WORD
      modifies this
      ensures Valid() <==> size < WORD - 1 || (old(buffer) == null && !granted)
      ensures Valid() ==> Text() == old(Text())
      ensures ok <==> old(capacity) >= size || Grants(size, granted)
      ensures ok ==> capacity >= size && (size > 0 ==> buffer != null)
      ensures capacity == old(capacity) || capacity == size
      ensures buffer == old(buffer) || fresh(buffer)
      ensures !ok && Valid() ==> unchanged(this)
    {
      if capacity >= size {
        return true;
      }
      ok := ChangeBuffer(size, granted);
      if ok && len == 0 && buffer.Length > 0 {
        buffer[0] := '\0';
      }
    }

    // ----- Replace

    method ReplaceSame(find: WString, repl: WString)
      requires Valid() && find.Valid() && repl.Valid() && this != find && this != repl
      requires buffer != null && find.buffer != null && buffer != find.buffer && buffer != repl.buffer
      requires |find.Text()| == |repl.Text()| > 0
      modifies buffer
      ensures Valid() && Text() == ReplaceAll(old(Text()), old(find.Text()), old(repl.Text()))
    {
      hide Progress, Laid, ReplaceAll, Find, StrStr, NulFree, Splice, TextAt;
      ghost var t, p, r := Text(), find.Text(), repl.Text();
      ghost var done: Text, u, rest := [], t, buffer[len..];
      find.TextInBuffer();
      repl.TextIsNulFree();
      ProgressStarts(t, p, r);
      LaidOut(buffer[..], u, rest);
      var readFrom := 0;
      while true
        invariant readFrom == |done| && |done| + |u| == len
        invariant Laid(buffer[..], done, [], u, rest) && Progress(t, p, r, done, u)
        invariant repl.Valid() && repl.Text() == r && TextAt(find.buffer[..], 0) == p
        decreases |u|
      {
        ProgressStep(t, p, r, done, u);
        FoundUnread(buffer[..], done, [], u, rest, p);
        var foundAt := StrStr(buffer[..], readFrom, TextAt(find.buffer[..], 0));
        if foundAt < 0 {
          break;
        }
        ghost var i := foundAt - readFrom;
        readFrom := ReplaceHere(repl, foundAt, i, done, u, rest);
        done, u := done + u[..i] + r, u[i + |r|..];
      }
      LaidText(buffer[..], done, u, rest);
      assert buffer[..len] == buffer[..][..len] && buffer[len] == buffer[..][len];
    }

    /** Writes the replacement over an equally long match at place i of the unread text. */
    method ReplaceHere(repl: WString, foundAt: nat, ghost i: nat,
                       ghost done: Text, ghost u: Text, ghost rest: seq<char>) returns (next: nat)
      requires repl.Valid() && buffer != null && buffer != repl.buffer
      requires Laid(buffer[..], done, [], u, rest) && foundAt == |done| + i && i + |repl.Text()| <= |u|
      modifies buffer
      ensures var r := old(repl.Text());
              next == foundAt + |r| && Laid(buffer[..], done + u[..i] + r, [], u[i + |r|..], rest)
    {
      hide Laid, Splice;
      LaidReplaced(buffer[..], done, u, rest, i, repl.Text());
      next := CopyReplacement(repl, foundAt);
    }

    method ReplaceShorter(find: WString, repl: WString)
      requires Valid() && find.Valid() && repl.Valid() && this != find && this != repl
      requires buffer != null && find.buffer != null && buffer != find.buffer && buffer != repl.buffer
      requires |repl.Text()| < |find.Text()|
      modifies this`len, buffer
      ensures Valid() && Text() == ReplaceAll(old(Text()), old(find.Text()), old(repl.Text()))
    {
      hide Progress, Laid, ReplaceAll, Find, StrStr, NulFree, Splice, TextAt;
      ghost var t, p, r := Text(), find.Text(), repl.Text();
      ghost var done: Text, gap: seq<char>, u, rest := [], [], t, buffer[len..];
      find.TextInBuffer();
      repl.TextIsNulFree();
      ProgressStarts(t, p, r);
      LaidOut(buffer[..], u, rest);
      var readFrom, writeTo := 0, 0;
      while true
        invariant readFrom == |done| + |gap| && writeTo == |done| && len == |done| + |u|
        invariant Laid(buffer[..], done, gap, u, rest) && Progress(t, p, r, done, u)
        invariant repl.Valid() && repl.Text() == r && TextAt(find.buffer[..], 0) == p
        decreases |u|
      {
        ProgressStep(t, p, r, done, u);
        FoundUnread(buffer[..], done, gap, u, rest, p);
        var foundAt := StrStr(buffer[..], readFrom, TextAt(find.buffer[..], 0));
        if foundAt < 0 {
          break;
        }
        var i := foundAt - readFrom;
        writeTo, gap := MoveDownAndReplace(repl, writeTo, readFrom, i, done, gap, u, rest, p);
        readFrom := foundAt + find.len;
        len := len - (find.len - repl.len);
        done, u := done + u[..i] + r, u[i + |p|..];
      }
      FinishShorter(done, gap, u, rest, writeTo, readFrom);
    }

    /** Closes the gap before the match at place i of the unread text and writes the replacement there. */
    method MoveDownAndReplace(repl: WString, writeTo: nat, readFrom: nat, i: nat,
                              ghost done: Text, ghost gap: seq<char>, ghost u: Text, ghost rest: seq<char>,
                              ghost p: Text)
      returns (next: nat, ghost gap': seq<char>)
      requires repl.Valid() && buffer != null && buffer != repl.buffer
      requires Laid(buffer[..], done, gap, u, rest)
      requires writeTo == |done| && readFrom == |done| + |gap|
      requires i + |p| <= |u| && |repl.Text()| <= |p|
      modifies buffer
      ensures var r := old(repl.Text());
              && next == writeTo + i + |r| && |gap'| == |gap| + |p| - |r|
              && Laid(buffer[..], done + u[..i] + r, gap', u[i + |p|..], rest)
    {
      hide Splice, NulFree;
      ghost var r := repl.Text();
      LaidLength(buffer[..], done, gap, u, rest);
      SpliceDown(done, gap, u, rest, i, p, r);
      TailIsNulFree(u, i + |p|);
      assert buffer[readFrom..readFrom + i] == u[..i];
      MemCpyWithin(buffer, writeTo, readFrom, i);
      next := writeTo + i;
      next := CopyReplacement(repl, next);
      gap' := (gap + u)[i + |r|..|gap| + i + |p|];
    }

    method CopyReplacement(repl: WString, writeTo: nat) returns (next: nat)
      requires repl.Valid() && buffer != null && buffer != repl.buffer
      requires writeTo + |repl.Text()| <= buffer.Length
      modifies buffer
      ensures next == writeTo + |old(repl.Text())|
      ensures buffer[..] == Splice(old(buffer[..]), writeTo, old(repl.Text()))
    {
      next := writeTo + repl.len;
      if repl.buffer != null {
        assert repl.buffer[0..repl.len] == repl.Text();
        MemCpy(buffer, writeTo, repl.buffer, 0, repl.len);
      }
    }

    /** Moves the last unread text and its NUL down to the finished part. */
    method FinishShorter(ghost done: Text, ghost gap: seq<char>, ghost u: Text, ghost rest: seq<char>,
                         writeTo: nat, readFrom: nat)
      requires buffer != null && buffer.Length == capacity + 1 < BLOCK_LIMIT
      requires Laid(buffer[..], done, gap, u, rest) && NulFree(done + u)
      requires writeTo == |done| && readFrom == |done| + |gap| && len == |done| + |u|
      modifies buffer
      ensures Valid() && Text() == done + u
    {
      ghost var n := readFrom + |u|;
      assert buffer[..][n] == rest[0];
      assert forall i :: 0 <= i < |u| ==> buffer[..][readFrom + i] == u[i];
      assert buffer[readFrom..n + 1] == u + [rest[0]];
      SpliceEnd(done, gap, u, rest);
      StrCpyDown(buffer, writeTo, readFrom, n);
      assert buffer[..len] == buffer[..][..len] && buffer[len] == buffer[..][len];
    }

    // ----- Search from the end

    lemma TextFrom(q: nat)
      requires Valid() && buffer != null && q <= len
      ensures TextAt(buffer[..], q) == Text()[q..]
    {
      TextAtIs(buffer[..], q, len);
      assert buffer[..][q..len] == buffer[..len][q..];
    }

    /** lastIndexOf for a string: the empty string is never found. */
    method LastIndexOf(s2: WString, fromIndex: nat) returns (found: int)
      requires Valid() && s2.Valid()
      ensures if s2.Text() == [] then found == -1 else IsLastMatch(Text(), s2.Text(), fromIndex, found)
    {
      ghost var t, p := Text(), s2.Text();
      if s2.len == 0 || len == 0 || s2.len > len {
        return -1;
      }
      var from := if fromIndex >= len then len - 1 else fromIndex;
      found := -1;
      s2.TextInBuffer();
      var q := 0;
      while q <= from
        invariant 0 <= q && -1 <= found < q && found <= from
        invariant found >= 0 ==> MatchesAt(t, p, found)
        invariant forall j :: found < j < q && j <= from ==> !MatchesAt(t, p, j)
        decreases from + 1 - q
      {
        TextFrom(q);
        StrStrFinds(buffer[..], t, p, q);
        var i := StrStr(buffer[..], q, TextAt(s2.buffer[..], 0));
        if i < 0 {
          break;
        }
        if i <= from {
          found := i;
        }
        q := i + 1;
      }
      assert forall j :: len <= j ==> !MatchesAt(t, p, j);
    }

    /** lastIndexOf for a character: cuts the text short with a NUL, searches, and puts the byte back.
      The NUL itself is found where the text was cut. */
    method LastIndexOfChar(ch: char, fromIndex: nat) returns (found: int)
      requires Valid()
      modifies buffer
      ensures buffer != null ==> buffer[..] == old(buffer[..])
      ensures Valid() && Text() == old(Text())
      ensures fromIndex >= len ==> found == -1
      ensures fromIndex < len && ch == '\0' ==> found == fromIndex + 1
      ensures fromIndex < len && ch != '\0' ==> IsLastMatch(Text(), [ch], fromIndex, found)
    {
      if fromIndex >= len {
        return -1;
      }
      ghost var s, t := buffer[..], Text();
      var tempchar := buffer[fromIndex + 1];
      buffer[fromIndex + 1] := '\0';
      TextAtIs(buffer[..], 0, fromIndex + 1);
      assert buffer[..][0..fromIndex + 1] == t[..fromIndex + 1];
      found := StrRChr(buffer[..], ch);
      buffer[fromIndex + 1] := tempchar;
      assert buffer[..] == s;
      if ch != '\0' {
        forall j | found < j <= fromIndex ensures t[j] != ch { assert t[..fromIndex + 1][j] == t[j]; }
        CharIsLastMatch(t, ch, fromIndex, found);
      }
    }

    lemma CharIsLastMatch(t: Text, ch: char, from: nat, i: int)
      requires from < |t| && -1 <= i <= from
      requires i >= 0 ==> t[i] == ch
      requires forall j :: i < j <= from ==> t[j] != ch
      ensures IsLastMatch(t, [ch], from, i)
    {
      forall j | 0 <= j < |t|
        ensures MatchesAt(t, [ch], j) <==> t[j] == ch
      {
        assert t[j..j + 1] == [t[j]];
      }
    }

    // ----- Replace by something longer

    /** Opens room behind the match at place j and writes the replacement over it. */
    method ReplaceAt(find: WString, repl: WString, j: nat)
      requires Valid() && find.Valid() && repl.Valid() && this != find && this != repl
      requires buffer != null && buffer != repl.buffer
      requires MatchesAt(Text(), find.Text(), j) && |find.Text()| < |repl.Text()|
      requires len + |repl.Text()| - |find.Text()| <= capacity
      modifies this`len, buffer
      ensures Valid()
      ensures var t, p, r := old(Text()), old(find.Text()), old(repl.Text());
              Text() == t[..j] + r + t[j + |p|..]
    {
      hide Splice, NulFree;
      ghost var s, t, r := buffer[..], Text(), repl.Text();
      var readFrom := j + find.len;
      repl.TextIsNulFree();
      ReplacedIsNulFree(t, j, readFrom, r);
      SpliceUp(s, t, j, find.len, r);
      OpenRoom(repl, j, readFrom, repl.len - find.len, t, r);
    }

    /** Moves the text from `readFrom` on up by diff places, and writes the replacement at place j. */
    method OpenRoom(repl: WString, j: nat, readFrom: nat, diff: nat, ghost t: Text, ghost r: Text)
      requires buffer != null && repl.Valid() && this != repl && buffer != repl.buffer && buffer.Length == capacity + 1
      requires r == repl.Text() && r != [] && len + diff <= capacity && j <= readFrom <= len && t == buffer[..len]
      requires j + |r| == readFrom + diff
      requires var s' := Splice(Splice(buffer[..], j + |r|, t[readFrom..])[len + diff := '\0'], j, r);
               s'[..len + diff] == t[..j] + r + t[readFrom..] && s'[len + diff] == '\0'
      modifies this`len, buffer
      ensures len == old(len) + diff
      ensures buffer[..len] == t[..j] + r + t[readFrom..] && buffer[len] == '\0'
    {
      hide Splice, NulFree;
      assert buffer[readFrom..len] == t[readFrom..];
      MemMove(buffer, readFrom + diff, readFrom, len - readFrom);
      len := len + diff;
      buffer[len] := '\0';
      assert repl.buffer[0..repl.len] == r;
      MemCpy(buffer, j, repl.buffer, 0, repl.len);
      assert buffer[..len] == buffer[..][..len] && buffer[len] == buffer[..][len];
    }

    /** The length the result will have, counted left to right in 32 bits. */
    method SizeAfterReplace(find: WString, repl: WString) returns (size: nat)
      requires Valid() && find.Valid() && repl.Valid()
      requires buffer != null && 0 < |find.Text()| < |repl.Text()|
      ensures size == CountedSize(Text(), find.Text(), repl.Text())
    {
      hide ReplaceAll, Find, StrStr, Growth, NulFree, TextAt, SameWord;
      ghost var t, p, r := Text(), find.Text(), repl.Text();
      ghost var n := |ReplaceAll(t, p, r)|;
      var diff := repl.len - find.len;
      find.TextInBuffer();
      GrowthIsLength(t, p, r);
      ghost var u := t;
      var readFrom := 0;
      size := len;
      while true
        invariant readFrom <= len && u == t[readFrom..] && size < WORD
        invariant SameWord(size + Growth(u, p, diff), n)
        decreases |u|
      {
        TextFrom(readFrom);
        GrowthStep(u, p, diff);
        FoundInText(buffer[..], u, readFrom, p);
        var foundAt := StrStr(buffer[..], readFrom, TextAt(find.buffer[..], 0));
        if foundAt < 0 {
          break;
        }
        readFrom := foundAt + find.len;
        u := t[readFrom..];
        WrapOnce(size + diff, Growth(u, p, diff), n);
        size := (size + diff) % WORD;
      }
      SameIsWrapped(size, n);
    }

    lemma FoundInText(s: seq<char>, u: Text, from: nat, p: Text)
      requires TextAt(s, from) == u
      ensures StrStr(s, from, p) == if Find(u, p) < 0 then -1 else from + Find(u, p)
    {}

    /** By how much the replacements in u make it longer. */
    ghost function Growth(u: Text, p: Text, diff: nat): nat
      requires p != []
    {
      Count(u, p) * diff
    }

    lemma GrowthIsLength(t: Text, p: Text, r: Text)
      requires 0 < |p| <= |r|
      ensures SameWord(|t| + Growth(t, p, |r| - |p|), |ReplaceAll(t, p, r)|)
    {
      ReplaceAllLength(t, p, r);
    }

    lemma GrowthStep(u: Text, p: Text, diff: nat)
      requires p != []
      ensures var i := Find(u, p);
              Growth(u, p, diff) == if i < 0 then 0 else diff + Growth(u[i + |p|..], p, diff)
    {
      hide Find, Count;
      CountAtFind(u, p);
      var i := Find(u, p);
      if i >= 0 { Distribute(Count(u[i + |p|..], p), diff); }
    }

    /** a and b are the same in 32 bits. */
    predicate SameWord(a: int, b: int) {
      a % WORD == b % WORD
    }

    lemma SameIsWrapped(size: nat, n: nat)
      requires SameWord(size, n) && size < WORD
      ensures size == n % WORD
    {}

    lemma WrapOnce(a: nat, b: nat, n: nat)
      requires SameWord(a + b, n)
      ensures a % WORD < WORD && SameWord(a % WORD + b, n)
    {}

    /** What the loop has made of the text when everything right of `index` is done. */
    ghost function Worked(t: Text, p: Text, r: Text, index: int): Text
      requires p != [] && -1 <= index < |t|
    {
      t[..index + 1] + RightToLeft(t[index + 1..], p, r)
    }

    lemma WorkedStep(t: Text, p: Text, r: Text, index: int, j: int)
      requires 0 < |p| <= |r| && 0 <= index < |t|
      requires IsLastMatch(Worked(t, p, r, index), p, index, j)
      ensures -1 <= j <= index && (j >= 0 ==> MatchesAt(Worked(t, p, r, index), p, j))
      ensures j < 0 ==> Worked(t, p, r, index) == RightToLeft(t, p, r)
      ensures j >= 0 ==> var c := Worked(t, p, r, index);
                         Worked(t, p, r, j - 1) == c[..j] + r + c[j + |p|..]
    {
      if j < 0 {
        RightToLeftSkips(t, p, r, 0, index + 1);
        assert t[0..] == t;
        assert t[0..index + 1] == t[..index + 1];
      } else {
        RightToLeftTakes(t, p, r, j, index + 1);
      }
    }

    lemma WorkedFits(t: Text, p: Text, r: Text, index: int)
      requires 0 < |p| <= |r| && -1 <= index < |t|
      ensures |Worked(t, p, r, index)| <= |RightToLeft(t, p, r)|
    {
      RightToLeftTail(t, p, r, index + 1);
    }

    /** The loop of the growing replace. Where the code would write behind its buffer, the model stops and
      answers false. */
    method ReplaceFromRight(find: WString, repl: WString) returns (inside: bool)
      requires Valid() && find.Valid() && repl.Valid() && this != find && this != repl
      requires buffer != null && buffer != find.buffer && buffer != repl.buffer
      requires 0 < |find.Text()| < |repl.Text()| && 0 < len
      modifies this`len, buffer
      ensures Valid()
      ensures var out := RightToLeft(old(Text()), old(find.Text()), old(repl.Text()));
              && (inside <==> |out| <= capacity)
              && (inside ==> Text() == out)
    {
      hide RightToLeft, NulFree, Worked, IsLastMatch;
      ghost var t, p, r := Text(), find.Text(), repl.Text();
      var index := len - 1;
      WorkedStarts(t, p, r);
      WorkedEnds(t, p, r);
      while index >= 0
        invariant -1 <= index < |t| && index < len
        invariant Valid() && find.Valid() && repl.Valid() && find.Text() == p && repl.Text() == r
        invariant Text() == Worked(t, p, r, index)
        decreases index
      {
        inside, index := ReplaceLast(find, repl, index, t);
        if !inside {
          return;
        }
      }
      return true;
    }

    /** One round: replaces the last match no higher than `index` and goes on in front of it, or ends the loop. */
    method ReplaceLast(find: WString, repl: WString, index: nat, ghost t: Text) returns (inside: bool, next: int)
      requires Valid() && find.Valid() && repl.Valid() && this != find && this != repl
      requires buffer != null && buffer != find.buffer && buffer != repl.buffer
      requires 0 < |find.Text()| < |repl.Text()| && index < |t| && index < len
      requires Text() == Worked(t, find.Text(), repl.Text(), index)
      modifies this`len, buffer
      ensures Valid() && -1 <= next < index && next < len
      ensures inside ==> Text() == Worked(t, old(find.Text()), old(repl.Text()), next)
      ensures !inside ==> |RightToLeft(t, old(find.Text()), old(repl.Text()))| > capacity
    {
      hide RightToLeft, NulFree, Worked, IsLastMatch;
      ghost var p, r := find.Text(), repl.Text();
      var j := LastIndexOf(find, index);
      WorkedStep(t, p, r, index, j);
      WorkedEnds(t, p, r);
      if j < 0 {
        return true, -1;
      }
      WorkedFits(t, p, r, j - 1);
      if len + repl.len - find.len > capacity {
        return false, -1;
      }
      ReplaceAt(find, repl, j);
      return true, j - 1;
    }

    lemma WorkedStarts(t: Text, p: Text, r: Text)
      requires p != [] && t != []
      ensures Worked(t, p, r, |t| - 1) == t
    {
      assert t[|t|..] == [];
      assert t[..|t|] + [] == t;
    }

    lemma WorkedEnds(t: Text, p: Text, r: Text)
      requires p != [] && t != []
      ensures Worked(t, p, r, -1) == RightToLeft(t, p, r)
    {
      assert t[0..] == t;
    }

    /** The growing branch. The size is counted from the left, in 32 bits, while the work is done from the right, so
      the work may need more room than there is. */
    method ReplaceLonger(find: WString, repl: WString, granted: bool) returns (sound: bool)
      requires Valid() && find.Valid() && repl.Valid() && this != find && this != repl
      requires buffer != null && buffer != find.buffer && buffer != repl.buffer
      requires 0 < |find.Text()| < |repl.Text()| && 0 < len
      modifies this, buffer
      ensures var t, p, r := old(Text()), old(find.Text()), old(repl.Text());
              && (sound <==> StaysSound(t, p, r, old(capacity), granted))
              && (sound ==> Valid())
              && (sound ==> Text() == if GivesUp(t, p, r, old(capacity), granted) then t else RightToLeft(t, p, r))
    {
      hide RightToLeft, CountedSize, NulFree;
      var size := SizeAfterReplace(find, repl);
      CountedIsWord(Text(), find.Text(), repl.Text());
      if size == len {
        return true;
      }
      if size > capacity {
        var ok := ChangeBuffer(size, granted);
        if !ok {
          return size < WORD - 1;
        }
        if size == WORD - 1 {
          return false;
        }
      }
      sound := ReplaceFromRight(find, repl);
    }

    lemma CountedIsWord(t: Text, p: Text, r: Text)
      requires p != []
      ensures CountedSize(t, p, r) < WORD
    {}

    /** replace for strings; false if it writes behind its buffer or loses it. When no match can reach into a
      replacement, it does neither as long as the length of the result is less than 2^32 - 1. */
    method Replace(find: WString, repl: WString, granted: bool) returns (sound: bool)
      requires Valid() && find.Valid() && repl.Valid() && this != find && this != repl
      requires buffer != null ==> buffer != find.buffer && buffer != repl.buffer
      modifies this, buffer
      ensures var t, p, r := old(Text()), old(find.Text()), old(repl.Text());
              && (sound <==> (0 < |p| < |r| ==> StaysSound(t, p, r, old(capacity), granted)))
              && (0 < |p| < |r| && NoStraddle(p, r) && |ReplaceAll(t, p, r)| < WORD - 1 ==> sound)
              && (sound ==> Valid())
              && (p == [] ==> Text() == t)
              && (0 < |p| && |r| <= |p| ==> Text() == ReplaceAll(t, p, r))
              && (0 < |p| < |r| && sound ==>
                    Text() == if GivesUp(t, p, r, old(capacity), granted) then t else RightToLeft(t, p, r))
    {
      hide RightToLeft, NulFree, NoStraddle, StaysSound, GivesUp;
      ghost var p, r := find.Text(), repl.Text();
      if 0 < |p| < |r| && NoStraddle(p, r) {
        SoundExactly(Text(), p, r, capacity, granted);
      }
      if len == 0 || find.len == 0 {
        if p != [] { EmptyText(p, r, capacity, granted); }
        return true;
      }
      hide ReplaceAll;
      sound := true;
      var diff := repl.len - find.len;
      if diff == 0 {
        ReplaceSame(find, repl);
      } else if diff < 0 {
        ReplaceShorter(find, repl);
      } else {
        sound := ReplaceLonger(find, repl, granted);
      }
    }

    lemma EmptyText(p: Text, r: Text, capacity: nat, granted: bool)
      requires p != []
      ensures ReplaceAll([], p, r) == [] && RightToLeft([], p, r) == []
      ensures StaysSound([], p, r, capacity, granted) && GivesUp([], p, r, capacity, granted)
    {}

    /** Whenever no match can overlap another or a replacement and the length of the result is less than 2^32 - 1,
      replace is leftmost non-overlapping replacement, or leaves the text as it is for want of memory. */
    method ReplaceDisjoint(find: WString, repl: WString, granted: bool) returns (sound: bool)
      requires Valid() && find.Valid() && repl.Valid() && this != find && this != repl
      requires buffer != null ==> buffer != find.buffer && buffer != repl.buffer
      requires 0 < |find.Text()| < |repl.Text()| ==> NoOverlap(find.Text(), repl.Text())
      modifies this, buffer
      ensures var t, p, r := old(Text()), old(find.Text()), old(repl.Text());
              (0 < |p| < |r| ==> |ReplaceAll(t, p, r)| < WORD - 1) ==>
                && sound && Valid()
                && Text() == if p == [] then t
                             else
                               var out := ReplaceAll(t, p, r);
                               if |r| <= |p| || |out| <= old(capacity) || Grants(|out|, granted) then out else t
    {
      ghost var t, p, r := Text(), find.Text(), repl.Text();
      if 0 < |p| < |r| && |ReplaceAll(t, p, r)| < WORD - 1 {
        NoOverlapIsNoStraddle(p, r);
        OrdersAgree(t, p, r);
        WhenItGivesUp(t, p, r, capacity, granted);
      }
      hide RightToLeft, ReplaceAll, NoOverlap, NoStraddle, NulFree, GivesUp, StaysSound;
      sound := Replace(find, repl, granted);
    }

    lemma NoOverlapIsNoStraddle(p: Text, r: Text)
      requires NoOverlap(p, r)
      ensures NoStraddle(p, r)
    {}

    lemma WhenItGivesUp(t: Text, p: Text, r: Text, capacity: nat, granted: bool)
      requires 0 < |p| < |r| && |ReplaceAll(t, p, r)| < WORD - 1 && RightToLeft(t, p, r) == ReplaceAll(t, p, r)
      requires |t| <= capacity
      ensures var out := ReplaceAll(t, p, r);
              (if GivesUp(t, p, r, capacity, granted) then t else out) ==
              if |out| <= capacity || Grants(|out|, granted) then out else t
    {
      hide ReplaceAll, RightToLeft;
      if |ReplaceAll(t, p, r)| == |t| { NothingLonger(t, p, r); }
      SmallMod(|ReplaceAll(t, p, r)|);
    }

    lemma NothingLonger(t: Text, p: Text, r: Text)
      requires 0 < |p| < |r| && |ReplaceAll(t, p, r)| == |t|
      ensures RightToLeft(t, p, r) == t
    {
      hide ReplaceAll, RightToLeft;
      ReplaceAllLength(t, p, r);
      ZeroTimes(Count(t, p), |r| - |p|);
      RightToLeftIdle(t, p, r);
    }

    lemma ZeroTimes(c: nat, d: nat)
      requires d > 0
      ensures c * d == 0 <==> c == 0
    {}

    // ----- Remove and trim

    method RemoveFrom(index: nat)
      requires Valid()
      modifies this`len, buffer
      ensures Valid() && Text() == if index < old(len) then old(Text())[..index] else old(Text())
    {
      if index < len {
        len := index;
        buffer[len] := '\0';
      }
    }

    /** remove with a count. When the end of the range exceeds 32 bits it lies in front of the range, and text is
      doubled instead of removed: where that would write behind the buffer, the model stops and answers false. */
    method Remove(index: nat, count: nat) returns (inside: bool)
      requires Valid() && index < WORD && count < WORD
      modifies this`len, buffer
      ensures Valid()
      ensures inside <==> index >= old(len) || index + count < WORD || old(len) + WORD - count <= capacity
      ensures inside ==>
                var t, end := old(Text()), WrappedEnd(index, count);
                Text() == if index >= |t| then t else t[..index] + if end > |t| then [] else t[end..]
    {
      hide LengthAfterRemove, WrappedEnd, NulFree;
      inside := true;
      if count == 0 && index < len {
        EmptyRange(index);
        assert Text()[..index] + Text()[index..] == Text();
      }
      if index < len && count > 0 {
        var end := WrappedEnd(index, count);
        WrappedLength(len, index, count);
        if index + count >= WORD && len + WORD - count > capacity {
          return false;
        }
        MoveTail(index, if end > len then len else end, LengthAfterRemove(len, index, count));
      }
    }

    /** Puts the text from place `from` on at place `to`, and the NUL behind it. */
    method MoveTail(to: nat, from: nat, left: nat)
      requires Valid() && buffer != null && to <= len && from <= len && left == to + (len - from) <= capacity
      modifies this`len, buffer
      ensures Valid() && Text() == old(Text())[..to] + old(Text())[from..]
    {
      hide NulFree, Splice;
      ghost var t := Text();
      TailIsNulFree(t, to);
      TailIsNulFree(t, from);
      EmptyIsNulFree();
      NulFreeParts(t[..to], t[from..], []);
      assert t[..to] + t[from..] + [] == t[..to] + t[from..];
      assert buffer[from..len] == t[from..];
      SpliceTail(buffer[..], t, to, from);
      MemMove(buffer, to, from, len - from);
      len := left;
      buffer[len] := '\0';
      assert buffer[..len] == buffer[..][..len];
    }

    /** trim: what remains lies at place `start` of the old text. */
    method Trim() returns (ghost start: nat)
      requires Valid()
      modifies this`len, buffer
      ensures Valid() && IsTrimmed(old(Text()), Text(), start)
      ensures forall a, u, b :: old(Text()) == a + u + b && AllBlank(a) && Tight(u) && AllBlank(b) ==> Text() == u
    {
      start := TrimInPlace();
      ghost var t, v := old(Text()), Text();
      forall a, u, b | t == a + u + b && AllBlank(a) && Tight(u) && AllBlank(b)
        ensures v == u
      {
        TrimmedIsMiddle(a, u, b, v, start);
      }
    }

    method TrimInPlace() returns (ghost start: nat)
      requires Valid()
      modifies this`len, buffer
      ensures Valid() && IsTrimmed(old(Text()), Text(), start)
    {
      hide NulFree, IsTrimmed;
      start := 0;
      ghost var t := Text();
      if buffer == null || len == 0 {
        TrimmedRange(t, 0, -1);
        return;
      }
      var begin := 0;
      while IsSpace(buffer[begin])
        invariant begin <= len
        invariant forall k :: 0 <= k < begin ==> IsSpace(buffer[k])
        decreases len - begin
      {
        begin := begin + 1;
      }
      var end := len - 1;
      while IsSpace(buffer[end]) && end >= begin
        invariant begin - 1 <= end < len && 0 <= end
        invariant forall k :: end < k < len ==> IsSpace(buffer[k])
      {
        end := end - 1;
      }
      start := begin;
      TrimmedRange(t, begin, end);
      KeepRange(begin, end + 1 - begin);
    }

    method KeepRange(begin: nat, n: nat)
      requires Valid() && buffer != null && begin + n <= len
      modifies this`len, buffer
      ensures Valid() && Text() == old(Text())[begin..begin + n]
    {
      hide NulFree, Splice;
      ghost var t := Text();
      TailIsNulFree(t, begin + n);
      TailIsNulFree(t[..begin + n], begin);
      assert t[..begin + n][begin..] == t[begin..begin + n] == buffer[begin..begin + n];
      SpliceToFront(buffer[..], t[begin..begin + n]);
      len := n;
      if begin > 0 {
        MemCpyWithin(buffer, 0, begin, len);
      }
      buffer[len] := '\0';
      assert buffer[..len] == buffer[..][..len];
    }

    // ----- Append

    /** cstr points to `length` characters followed by a NUL: nowhere, into this text, or into another buffer. */
    ghost predicate PointsTo(cstr: Source, length: nat)
      requires Valid()
      reads this, buffer, if cstr.Foreign? then {cstr.chars} else {}
    {
      match cstr
      case Null => length == 0
      case Own(offset) => buffer != null && offset + length == len
      case Foreign(chars, offset) =>
        && chars != buffer && offset + length < chars.Length < BLOCK_LIMIT
        && chars[offset + length] == '\0' && NulFree(chars[offset..offset + length])
    }

    ghost function SourceText(cstr: Source, length: nat): Text
      requires Valid() && PointsTo(cstr, length)
      reads this, buffer, if cstr.Foreign? then {cstr.chars} else {}
    {
      match cstr
      case Null => []
      case Own(offset) => buffer[offset..len]
      case Foreign(chars, offset) => chars[offset..offset + length]
    }

    /** append: also when the source lies in this string's own buffer and that buffer moves. */
    method Append(cstr: Source, length: nat, granted: bool)
      requires Valid() && PointsTo(cstr, length)
      modifies this, buffer
      ensures Valid()
      ensures Text() == if old(capacity) >= old(len) + length || Grants(old(len) + length, granted) || length == 0
                        then old(Text()) + old(SourceText(cstr, length)) else old(Text())
      ensures capacity == old(capacity) || capacity == old(len) + length
      ensures buffer == old(buffer) || fresh(buffer)
    {
      hide NulFree;
      ghost var t, x := Text(), SourceText(cstr, length);
      var newlen := len + length;
      if length == 0 {
        assert t + x == t;
        return;
      }
      SourceIsNulFree(cstr, length);
      var ok := Reserve(newlen, granted);
      if !ok {
        return;
      }
      CopyBehind(cstr, length, t, x);
      len := newlen;
      NulFreeParts(t, x, []);
      assert t + x + [] == t + x;
    }

    /** Puts the source and a NUL behind the text t. */
    method CopyBehind(cstr: Source, length: nat, ghost t: Text, ghost x: Text)
      requires buffer != null && len + length < buffer.Length && |x| == length > 0 && t == buffer[..len]
      requires match cstr
               case Null => false
               case Own(offset) => offset + length == len && x == t[offset..]
               case Foreign(chars, offset) =>
                 && chars != buffer && offset + length < chars.Length && chars[offset + length] == '\0'
                 && x == chars[offset..offset + length]
                 && forall i :: offset <= i < offset + length ==> chars[i] != '\0'
      modifies buffer
      ensures buffer[..len + length] == t + x && buffer[len + length] == '\0'
    {
      hide Splice;
      var newlen := len + length;
      var self := cstr.Own? && cstr.offset < len;
      assert buffer[..][..len] == t;
      SpliceAppend(buffer[..], t, x);
      if self {
        assert buffer[cstr.offset..cstr.offset + length] == buffer[..len][cstr.offset..] == x;
        MemCpyWithin(buffer, len, cstr.offset, length);
        buffer[newlen] := '\0';
      } else {
        assert cstr.chars[cstr.offset..cstr.offset + length + 1] == x + ['\0'];
        StrCpy(buffer, len, cstr.chars, cstr.offset, cstr.offset + length);
      }
      assert buffer[..newlen] == buffer[..][..newlen] && buffer[newlen] == buffer[..][newlen];
    }

    lemma SourceIsNulFree(cstr: Source, length: nat)
      requires Valid() && PointsTo(cstr, length)
      ensures NulFree(SourceText(cstr, length))
      ensures cstr.Foreign? ==> forall i :: cstr.offset <= i < cstr.offset + length ==> cstr.chars[i] != '\0'
      ensures cstr.Own? ==> SourceText(cstr, length) == Text()[cstr.offset..]
    {
      if cstr.Foreign? {
        forall i | cstr.offset <= i < cstr.offset + length
          ensures cstr.chars[i] != '\0'
        {
          assert SourceText(cstr, length)[i - cstr.offset] == cstr.chars[i];
        }
      }
    }
  }
  /** remove of 2^32 - 1 characters from place 1 of "abc", whose buffer is full, writes behind it. */
  method RemoveBehind() returns (inside: bool)
    ensures !inside
  {
    var s := new WString();
    var chars := new char[4];
    chars[0], chars[1], chars[2], chars[3] := 'a', 'b', 'c', '\0';
    s.Append(Foreign(chars, 0), 3, true);
    assert |s.Text()| == 3;
    inside := s.Remove(1, WORD - 1);
  }
}

/** A ring of words that lies in two arrays, the second of which may be added later.
  `head` is the slot last written and `tail` the slot last read, so one slot stays empty. */
module SplitRings {

  import opened Uarts

  /** The slot behind slot i in a ring of n slots. */
  function Next(n: nat, i: nat): nat {
    if i + 1 >= n then 0 else i + 1
  }

  /** The words between tail and head. */
  function Live(s: seq<word>, head: nat, tail: nat): seq<word>
    requires head < |s| && tail < |s|
  {
    if head >= tail then s[tail + 1..head + 1] else s[tail + 1..] + s[..head + 1]
  }

  lemma LiveCount(s: seq<word>, head: nat, tail: nat)
    requires head < |s| && tail < |s|
    ensures |Live(s, head, tail)| == if head >= tail then head - tail else |s| + head - tail
    ensures Live(s, head, tail) == [] <==> head == tail
    ensures |Live(s, head, tail)| == |s| - 1 <==> Next(|s|, head) == tail
  {}

  lemma LiveOne(s: seq<word>)
    requires |s| >= 2
    ensures Live(s, 1, 0) == [s[1]]
  {}

  /** The slot behind the head is not live, so filling it changes nothing. */
  lemma LiveStore(s: seq<word>, head: nat, tail: nat, c: word)
    requires head < |s| && tail < |s| && Next(|s|, head) != tail
    ensures Live(s[Next(|s|, head) := c], head, tail) == Live(s, head, tail)
  {}

  /** Moving the head on makes that slot the last live one. */
  lemma LivePublish(s: seq<word>, head: nat, tail: nat)
    requires head < |s| && tail < |s| && Next(|s|, head) != tail
    ensures Live(s, Next(|s|, head), tail) == Live(s, head, tail) + [s[Next(|s|, head)]]
  {
    var n := Next(|s|, head);
    if n == 0 {
      assert s[tail + 1..] == s[tail + 1..head + 1];
      assert s[..1] == [s[0]];
    } else if head >= tail {
      assert s[tail + 1..n + 1] == s[tail + 1..n] + [s[n]];
    } else {
      assert s[..n + 1] == s[..n] + [s[n]];
    }
  }

  /** Moving the tail on takes the first live word out. */
  lemma LivePop(s: seq<word>, head: nat, tail: nat)
    requires head < |s| && tail < |s| && head != tail
    ensures Live(s, head, tail) != []
    ensures Live(s, head, tail)[0] == s[Next(|s|, tail)]
    ensures Live(s, head, Next(|s|, tail)) == Live(s, head, tail)[1..]
  {
    var n := Next(|s|, tail);
    if n == 0 {
      assert s[tail + 1..] == [];
      assert s[..head + 1] == [s[0]] + s[1..head + 1];
    } else if head >= tail {
      assert s[tail + 1..head + 1] == [s[n]] + s[n + 1..head + 1];
    } else {
      assert s[tail + 1..] == [s[n]] + s[n + 1..];
    }
  }

  class SplitRing {
    const buffer: array<word>
    var storage: array?<word>
    var totalSize: nat
    var head: nat
    var tail: nat

    constructor (size: nat)
      requires 2 <= size <= 65536
      ensures Valid() && fresh(buffer) && storage == null && Contents() == [] && totalSize == size
      ensures head == tail == 0
    {
      buffer := new word[size](i => 0);
      storage, totalSize, head, tail := null, size, 0, 0;
    }

    /** Head and tail are 16-bit numbers, so the ring must have at most 65536 slots: HeadWraps. */
    ghost predicate Valid()
      reads this
    {
      && storage != buffer
      && 2 <= buffer.Length
      && totalSize == buffer.Length + (if storage == null then 0 else storage.Length) <= 65536
      && head < totalSize && tail < totalSize
    }

    ghost function Slots(): (s: seq<word>)
      reads this`storage, buffer, storage
      ensures |s| == buffer.Length + if storage == null then 0 else storage.Length
    {
      buffer[..] + if storage == null then [] else storage[..]
    }

    ghost function Contents(): seq<word>
      requires Valid()
      reads this, buffer, storage
    {
      Live(Slots(), head, tail)
    }

    method Load(i: nat) returns (c: word)
      requires Valid() && i < totalSize
      ensures c == Slots()[i]
    {
      if i < buffer.Length {
        c := buffer[i];
      } else {
        c := storage[i - buffer.Length];
      }
    }

    method Store(i: nat, c: word)
      requires Valid() && i < totalSize
      modifies buffer, storage
      ensures Slots() == old(Slots())[i := c]
    {
      if i < buffer.Length {
        buffer[i] := c;
      } else {
        storage[i - buffer.Length] := c;
      }
    }

    /** addMemoryForRead and addMemoryForWrite. Memory can be added once, the second time the size counts the first
      piece still, and only up to 65536 slots. The queued words survive if and only if they do not wrap around the
      old end. */
    method AddMemory(memory: array?<word>, length: nat)
      requires Valid() && (memory != null ==> memory != buffer && memory.Length == length)
      modifies this`storage, this`totalSize
      ensures storage == memory && totalSize == old(totalSize) + if memory == null then 0 else length
      ensures Valid() <==> (old(storage) == null || old(storage.Length) == 0) && totalSize <= 65536
      ensures Valid() ==> old(Slots()) <= Slots()
      ensures Valid() ==>
                (Contents() == old(Contents()) <==> old(head) >= old(tail) || totalSize == old(totalSize))
    {
      ghost var was := Slots();
      storage := memory;
      if memory != null {
        totalSize := totalSize + length;
      }
      if Valid() {
        assert Slots() == was + if memory == null then [] else memory[..];
        LiveGrows(was, if memory == null then [] else memory[..], head, tail);
      }
    }
  }

  /** More slots behind the last leave the live words as they are if and only if these do not wrap around. */
  lemma LiveGrows(s: seq<word>, more: seq<word>, head: nat, tail: nat)
    requires head < |s| && tail < |s|
    ensures Live(s + more, head, tail) == Live(s, head, tail) <==> head >= tail || more == []
  {
    LiveCount(s, head, tail);
    LiveCount(s + more, head, tail);
    if head >= tail {
      assert (s + more)[tail + 1..head + 1] == s[tail + 1..head + 1];
    } else if more == [] {
      assert s + more == s;
    }
  }

  /** Adding memory to a ring twice: six slots are counted where there are four. */
  method AddTwice() returns (ring: SplitRing)
    ensures !ring.Valid() && ring.totalSize == 6 && ring.storage != null
    ensures ring.buffer.Length + ring.storage.Length == 4
  {
    ring := new SplitRing(2);
    var first, second := new word[2], new word[2];
    ring.AddMemory(first, 2);
    ring.AddMemory(second, 2);
  }

  /** Two words around the end of a ring of three slots. */
  method Wrapped() returns (ring: SplitRing)
    ensures ring.Valid() && fresh(ring) && fresh(ring.buffer) && ring.storage == null
    ensures ring.totalSize == 3 && ring.head == 0 && ring.tail == 1 && ring.Contents() == [7, 8]
    ensures ring.Slots()[2] == 7 && ring.Slots()[0] == 8
  {
    ring := new SplitRing(3);
    ring.head, ring.tail := 1, 1;
    ring.Store(2, 7);
    ring.head := 2;
    ring.Store(0, 8);
    ring.head := 0;
  }

  /** Adding a slot to it puts a word between them that nobody wrote. */
  method AddToWrapped() returns (ring: SplitRing)
    ensures ring.Valid() && ring.Contents() == [7, 0, 8]
  {
    ring := Wrapped();
    var memory := new word[1](i => 0);
    ring.AddMemory(memory, 1);
    assert ring.Slots()[3] == memory[0];
  }

  /** In a ring of 65537 slots, the head behind slot 65535 is stored as 0: the new word is queued, and behind it the
    one in slot 0, which nobody wrote. */
  lemma HeadWraps(s: seq<word>, tail: nat, c: word)
    requires |s| == 65537 && 0 < tail < 65535
    ensures Next(|s|, 65535) == 65536
    ensures Live(s[65536 := c], 65536 % 65536, tail) == Live(s, 65535, tail) + [c] + [s[0]]
  {
    var s' := s[65536 := c];
    assert s'[tail + 1..] == s[tail + 1..65536] + [c];
    assert s'[..1] == [s[0]];
  }
}

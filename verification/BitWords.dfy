/** The bits of a 32-bit word. */
module BitWords {

  /** A shift by n places is n shifts by one place. */
  function Shl(w: bv32, n: nat): bv32 {
    if n == 0 then w else Shl(w, n - 1) << 1
  }

  function Shr(w: bv32, n: nat): bv32 {
    if n == 0 then w else Shr(w, n - 1) >> 1
  }

  predicate Meets(w: bv32, mask: bv32) {
    w & mask != 0
  }

  predicate Has(w: bv32, i: nat) {
    Meets(w, Shl(1, i))
  }

  function Cleared(w: bv32, mask: bv32): bv32 {
    w & !mask
  }

  function Joined(w: bv32, mask: bv32): bv32 {
    w | mask
  }

  /** The builtin that counts leading zeros; undefined for zero. */
  function Clz(w: bv32): (n: nat)
    requires w != 0
    ensures n < 32 && Has(w, 31 - n)
    ensures forall i :: 31 - n < i < 32 ==> !Has(w, i)
  {
    NonZeroHasBit(w);
    ClzFrom(w, 31)
  }

  function ClzFrom(w: bv32, i: nat): (n: nat)
    requires i < 32 && exists j :: 0 <= j <= i && Has(w, j)
    ensures 31 - i <= n < 32 && Has(w, 31 - n)
    ensures forall j :: 31 - n < j <= i ==> !Has(w, j)
  {
    if Has(w, i) then 31 - i else ClzFrom(w, i - 1)
  }

  lemma {:induction false} ShlAdds(w: bv32, i: nat, j: nat)
    ensures Shl(Shl(w, i), j) == Shl(w, i + j)
  {
    if j > 0 { ShlAdds(w, i, j - 1); }
  }

  lemma {:induction false} ShlZero(i: nat)
    ensures Shl(0, i) == 0
  {
    if i > 0 { ShlZero(i - 1); }
  }

  lemma TopBit()
    ensures Shl(1, 31) == 0x8000_0000
  {
    assert Shl(1, 8) == 0x100;
    ShlAdds(1, 8, 8);
    assert Shl(0x100, 8) == 0x1_0000;
    ShlAdds(1, 16, 8);
    assert Shl(0x1_0000, 8) == 0x100_0000;
    ShlAdds(1, 24, 7);
    assert Shl(0x100_0000, 7) == 0x8000_0000;
  }

  lemma BitNonZero(i: nat)
    requires i < 32
    ensures Shl(1, i) != 0
  {
    ShlAdds(1, i, 31 - i);
    TopBit();
    ShlZero(31 - i);
  }

  lemma {:induction false} BitsDiffer(i: nat, j: nat)
    requires i < j
    ensures Shl(1, i) & Shl(1, j) == 0
  {
    if i > 0 {
      BitsDiffer(i - 1, j - 1);
      ShiftedAnd(Shl(1, i - 1), Shl(1, j - 1));
    } else {
      LowBit(Shl(1, j - 1));
    }
  }

  lemma ShiftedAnd(a: bv32, b: bv32)
    ensures (a << 1) & (b << 1) == (a & b) << 1
  {}

  lemma LowBit(a: bv32)
    ensures 1 & (a << 1) == 0
  {}

  /** The n-th bit from the top, written as a right shift. */
  lemma {:induction false} FromTop(n: nat)
    requires n < 32
    ensures Shr(0x8000_0000, n) == Shl(1, 31 - n)
  {
    if n == 0 {
      TopBit();
    } else {
      FromTop(n - 1);
      BitsDiffer(31 - n, 31);
      TopBit();
      ShiftBack(Shl(1, 31 - n));
    }
  }

  lemma ShiftBack(a: bv32)
    requires a & 0x8000_0000 == 0
    ensures (a << 1) >> 1 == a
  {}

  lemma Disjoint(i: nat, j: nat)
    requires i != j
    ensures !Meets(Shl(1, i), Shl(1, j))
  {
    if i < j { BitsDiffer(i, j); } else { BitsDiffer(j, i); AndCommutes(Shl(1, i), Shl(1, j)); }
  }

  lemma AndCommutes(a: bv32, b: bv32)
    ensures a & b == b & a
  {}

  lemma ClearBit(w: bv32, i: nat, j: nat)
    requires i < 32 && j < 32
    ensures Has(Cleared(w, Shl(1, i)), j) <==> Has(w, j) && j != i
  {
    hide Shl, Meets, Cleared;
    if i == j {
      ClearSame(w, Shl(1, i));
    } else {
      Disjoint(i, j);
      ClearOther(w, Shl(1, i), Shl(1, j));
    }
  }

  lemma ClearSame(w: bv32, a: bv32)
    ensures !Meets(Cleared(w, a), a)
  {}

  lemma ClearOther(w: bv32, a: bv32, b: bv32)
    requires !Meets(a, b)
    ensures Meets(Cleared(w, a), b) <==> Meets(w, b)
  {
    hide Meets, Cleared;
    ClearedAnd(w, a, b);
    MeetsSame(Cleared(w, a), w, b);
  }

  lemma ClearedAnd(w: bv32, a: bv32, b: bv32)
    requires !Meets(a, b)
    ensures Cleared(w, a) & b == w & b
  {}

  lemma MeetsSame(w: bv32, w': bv32, b: bv32)
    requires w & b == w' & b
    ensures Meets(w, b) ==> Meets(w', b)
    ensures Meets(w', b) ==> Meets(w, b)
  {}

  lemma SetBit(w: bv32, i: nat, j: nat)
    requires i < 32 && j < 32
    ensures Has(Joined(w, Shl(1, i)), j) <==> Has(w, j) || j == i
  {
    hide Shl, Meets, Joined;
    if i == j {
      BitNonZero(i);
      SetSame(w, Shl(1, i));
    } else {
      Disjoint(i, j);
      SetOther(w, Shl(1, i), Shl(1, j));
    }
  }

  lemma SetSame(w: bv32, a: bv32)
    requires a != 0
    ensures Meets(Joined(w, a), a)
  {
    assert (w | a) & a == a;
  }

  lemma SetOther(w: bv32, a: bv32, b: bv32)
    requires !Meets(a, b)
    ensures Meets(Joined(w, a), b) <==> Meets(w, b)
  {
    hide Meets, Joined;
    FilledAnd(w, a, b);
    MeetsSame(Joined(w, a), w, b);
  }

  lemma FilledAnd(w: bv32, a: bv32, b: bv32)
    requires !Meets(a, b)
    ensures Joined(w, a) & b == w & b
  {}

  lemma ZeroHasNoBit(i: nat)
    ensures !Has(0, i)
  {}

  /** The lowest k bits. */
  function Low(k: nat): bv32 {
    if k == 0 then 0 else Low(k - 1) | Shl(1, k - 1)
  }

  lemma {:induction false} LowShifts(k: nat)
    ensures Low(k + 1) == (Low(k) << 1) | 1
  {
    if k > 0 {
      LowShifts(k - 1);
      ShiftedOr(Low(k - 1), Shl(1, k - 1));
    }
  }

  lemma ShiftedOr(a: bv32, b: bv32)
    ensures ((a << 1) | 1) | (b << 1) == ((a | b) << 1) | 1
  {}

  function Ones(w: bv32, n: nat): bv32 {
    if n == 0 then w else (Ones(w, n - 1) << 1) | 1
  }

  lemma {:induction false} LowIsOnes(k: nat)
    ensures Low(k) == Ones(0, k)
  {
    if k > 0 { LowIsOnes(k - 1); LowShifts(k - 1); }
  }

  lemma {:induction false} OnesAdds(w: bv32, i: nat, j: nat)
    ensures Ones(Ones(w, i), j) == Ones(w, i + j)
  {
    if j > 0 { OnesAdds(w, i, j - 1); }
  }

  lemma LowAll()
    ensures Low(32) == 0xFFFF_FFFF
  {
    LowIsOnes(32);
    assert Ones(0, 8) == 0xFF;
    OnesAdds(0, 8, 8);
    assert Ones(0xFF, 8) == 0xFFFF;
    OnesAdds(0, 16, 8);
    assert Ones(0xFFFF, 8) == 0xFF_FFFF;
    OnesAdds(0, 24, 8);
    assert Ones(0xFF_FFFF, 8) == 0xFFFF_FFFF;
  }

  lemma {:induction false} NoLowBits(w: bv32, k: nat)
    requires forall i :: 0 <= i < k ==> !Has(w, i)
    ensures w & Low(k) == 0
  {
    if k > 0 {
      NoLowBits(w, k - 1);
      assert !Has(w, k - 1);
      AndOr(w, Low(k - 1), Shl(1, k - 1));
    }
  }

  lemma AndOr(w: bv32, a: bv32, b: bv32)
    requires w & a == 0 && w & b == 0
    ensures w & (a | b) == 0
  {}

  lemma NonZeroHasBit(w: bv32)
    requires w != 0
    ensures exists i :: 0 <= i <= 31 && Has(w, i)
  {
    if forall i :: 0 <= i < 32 ==> !Has(w, i) {
      NoLowBits(w, 32);
      LowAll();
      AllOnes(w);
    }
  }

  lemma AllOnes(w: bv32)
    ensures w & 0xFFFF_FFFF == w
  {}
}

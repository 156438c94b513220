/** The set of used frames: one bit a frame, 32 to a word. */
module Bitsets {

  const NOT_FOUND := 0xFFFF_FFFF

  function Pack(b4: bool, b3: bool, b2: bool, b1: bool, b0: bool): (s: bv32)
    ensures s < 32
  {
    (if b4 then 16 else 0) | (if b3 then 8 else 0) | (if b2 then 4 else 0) | (if b1 then 2 else 0) | (if b0 then 1 else 0)
  }

  lemma PackDiffers(a4: bool, a3: bool, a2: bool, a1: bool, a0: bool, b4: bool, b3: bool, b2: bool, b1: bool, b0: bool)
    requires a4 != b4 || a3 != b3 || a2 != b2 || a1 != b1 || a0 != b0
    ensures Pack(a4, a3, a2, a1, a0) != Pack(b4, b3, b2, b1, b0)
  {
  }

  predicate Digit(j: nat, d: nat)
    requires 0 < d
  {
    j / d % 2 == 1
  }

  /** A shift count below 32 as a word. */
  function ShiftCount(j: nat): (s: bv32)
    requires j < 32
    ensures s < 32
  {
    Pack(Digit(j, 16), Digit(j, 8), Digit(j, 4), Digit(j, 2), Digit(j, 1))
  }

  lemma Digits(i: nat)
    requires i < 32
    ensures i == 16 * (i / 16 % 2) + 8 * (i / 8 % 2) + 4 * (i / 4 % 2) + 2 * (i / 2 % 2) + i / 1 % 2
  {
    var i2 := i / 2;
    var i4 := i2 / 2;
    var i8 := i4 / 2;
    assert i / 4 == i4 && i / 8 == i8 && i / 16 == i8 / 2 && i / 1 == i;
    assert i == 2 * i2 + i % 2 && i2 == 2 * i4 + i2 % 2 && i4 == 2 * i8 + i4 % 2 && i8 == 2 * (i8 / 2) + i8 % 2;
    assert i8 / 2 < 2;
  }

  lemma DigitIs(i: nat)
    ensures i / 16 % 2 == (if Digit(i, 16) then 1 else 0) && i / 8 % 2 == if Digit(i, 8) then 1 else 0
    ensures i / 4 % 2 == (if Digit(i, 4) then 1 else 0) && i / 2 % 2 == if Digit(i, 2) then 1 else 0
    ensures i / 1 % 2 == if Digit(i, 1) then 1 else 0
  {
  }

  lemma DigitsDiffer(i: nat, j: nat)
    requires i < 32 && j < 32 && i != j
    ensures Digit(i, 16) != Digit(j, 16) || Digit(i, 8) != Digit(j, 8) || Digit(i, 4) != Digit(j, 4)
            || Digit(i, 2) != Digit(j, 2) || Digit(i, 1) != Digit(j, 1)
  {
    Digits(i);
    Digits(j);
    DigitIs(i);
    DigitIs(j);
    hide Digit;
  }

  lemma ShiftCountsDiffer(i: nat, j: nat)
    requires i < 32 && j < 32 && i != j
    ensures ShiftCount(i) != ShiftCount(j)
  {
    hide Pack, Digit;
    DigitsDiffer(i, j);
    PackDiffers(Digit(i, 16), Digit(i, 8), Digit(i, 4), Digit(i, 2), Digit(i, 1),
                Digit(j, 16), Digit(j, 8), Digit(j, 4), Digit(j, 2), Digit(j, 1));
  }

  function Mask(s: bv32): bv32
    requires s < 32
  {
    1 << s
  }

  predicate BitAt(w: bv32, s: bv32)
    requires s < 32
  {
    w & Mask(s) != 0
  }

  function WithBit(w: bv32, s: bv32): bv32
    requires s < 32
  {
    w | Mask(s)
  }

  function WithoutBit(w: bv32, s: bv32): bv32
    requires s < 32
  {
    w & !Mask(s)
  }

  lemma Masks(a: bv32, b: bv32)
    requires a < 32 && b < 32
    ensures Mask(a) != 0 && if a == b then Mask(a) == Mask(b) else Mask(a) & Mask(b) == 0
  {
  }

  lemma OrMask(w: bv32, p: bv32, q: bv32)
    requires p != 0 && (p == q || p & q == 0)
    ensures (w | p) & q != 0 <==> w & q != 0 || p == q
  {
  }

  lemma AndNotMask(w: bv32, p: bv32, q: bv32)
    requires p != 0 && (p == q || p & q == 0)
    ensures (w & !p) & q != 0 <==> w & q != 0 && p != q
  {
  }

  lemma WordBits(w: bv32, a: bv32, b: bv32)
    requires a < 32 && b < 32
    ensures BitAt(WithBit(w, a), b) <==> BitAt(w, b) || a == b
    ensures BitAt(WithoutBit(w, a), b) <==> BitAt(w, b) && a != b
  {
    Masks(a, b);
    hide Mask;
    OrMask(w, Mask(a), Mask(b));
    AndNotMask(w, Mask(a), Mask(b));
  }

  lemma AllOrNone(b: bv32)
    requires b < 32
    ensures BitAt(0xFFFF_FFFF, b) && !BitAt(0, b)
  {
    Masks(b, b);
  }

  predicate Bit(w: bv32, j: nat)
    requires j < 32
  {
    BitAt(w, ShiftCount(j))
  }

  lemma BitUpdate(w: bv32, i: nat, j: nat)
    requires i < 32 && j < 32
    ensures Bit(WithBit(w, ShiftCount(i)), j) <==> Bit(w, j) || i == j
    ensures Bit(WithoutBit(w, ShiftCount(i)), j) <==> Bit(w, j) && i != j
    ensures Bit(0xFFFF_FFFF, j) && !Bit(0, j)
  {
    hide ShiftCount, BitAt, WithBit, WithoutBit;
    WordBits(w, ShiftCount(i), ShiftCount(j));
    AllOrNone(ShiftCount(j));
    if i != j {
      ShiftCountsDiffer(i, j);
    }
  }

  /** Membership of a bit in the words of a table. */
  predicate Has(words: seq<bv32>, f: nat) {
    f / 32 < |words| && Bit(words[f / 32], f % 32)
  }

  class Bitset {
    const table: array<bv32>
    ghost var members: set<nat>

    ghost predicate Valid()
      reads this, table
    {
      && (forall f: nat :: Has(table[..], f) <==> f in members)
      && (forall f :: f in members ==> f < 32 * table.Length)
    }

    lemma Range(f: nat)
      requires Valid() && f in members
      ensures f < 32 * table.Length
    {
    }

    /** Bits beyond a multiple of 32 are dropped. */
    constructor (numBits: nat)
      ensures Valid() && fresh(table) && table.Length == numBits / 32 && members == {}
    {
      table := new bv32[numBits / 32](_ => 0);
      members := {};
      new;
      forall f: nat ensures !Has(table[..], f) {
        BitUpdate(0, 0, f % 32);
      }
    }

    method Set(frame: nat)
      requires Valid() && frame < 32 * table.Length
      modifies this, table
      ensures Valid() && members == old(members) + {frame}
    {
      hide Bit, BitAt, WithBit, WithoutBit, ShiftCount;
      var index, offset := frame / 32, frame % 32;
      table[index] := WithBit(table[index], ShiftCount(offset));
      members := members + {frame};
      forall f: nat ensures Has(table[..], f) <==> f in members {
        assert Has(old(table[..]), f) <==> f in old(members);
        BitUpdate(old(table[index]), offset, f % 32);
      }
    }

    method Clear(frame: nat)
      requires Valid() && frame < 32 * table.Length
      modifies this, table
      ensures Valid() && members == old(members) - {frame}
    {
      hide Bit, BitAt, WithBit, WithoutBit, ShiftCount;
      var index, offset := frame / 32, frame % 32;
      table[index] := WithoutBit(table[index], ShiftCount(offset));
      members := members - {frame};
      forall f: nat ensures Has(table[..], f) <==> f in members {
        assert Has(old(table[..]), f) <==> f in old(members);
        BitUpdate(old(table[index]), offset, f % 32);
      }
    }

    method Test(frame: nat) returns (r: bool)
      requires Valid() && frame < 32 * table.Length
      ensures r <==> frame in members
    {
      hide BitAt, ShiftCount;
      assert Has(table[..], frame) <==> Bit(table[frame / 32], frame % 32);
      BitMeans(table[frame / 32], frame % 32);
      r := BitAt(table[frame / 32], ShiftCount(frame % 32));
    }

    /** The least bit that is not set, or NOT_FOUND when every bit is. */
    method Next() returns (r: nat)
      requires Valid() && 32 * table.Length < NOT_FOUND
      ensures r == NOT_FOUND <==> forall f: nat :: f < 32 * table.Length ==> f in members
      ensures r != NOT_FOUND ==> r < 32 * table.Length && r !in members && forall f: nat :: f < r ==> f in members
    {
      hide Bit, BitAt, WithBit, WithoutBit, ShiftCount;
      for i := 0 to table.Length
        invariant forall f: nat :: f < 32 * i ==> f in members
      {
        if table[i] == 0xFFFF_FFFF {
          forall f: nat | 32 * i <= f < 32 * i + 32 ensures f in members {
            BitUpdate(0, 0, f % 32);
            assert Has(table[..], f);
          }
          continue;
        }
        for j := 0 to 32
          invariant forall f: nat :: f < 32 * i + j ==> f in members
        {
          assert Has(table[..], 32 * i + j) <==> Bit(table[i], j);
          BitMeans(table[i], j);
          if !BitAt(table[i], ShiftCount(j)) {
            return 32 * i + j;
          }
        }
      }
      r := NOT_FOUND;
    }
  }

  lemma BitMeans(w: bv32, j: nat)
    requires j < 32
    ensures Bit(w, j) <==> BitAt(w, ShiftCount(j))
  {
  }
}

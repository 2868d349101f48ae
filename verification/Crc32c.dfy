/** CRC-32C one bit at a time, in the reflected form of section 12.1 of RFC 3720, and what
    changes to a message the code detects. */
module Crc32c {

  const POLYNOMIAL: bv32 := 0x82f6_3b78
  const INITIAL: bv32 := 0xffff_ffff

  function Xor(a: bv32, b: bv32): bv32 {
    a ^ b
  }

  function Half(a: bv32): bv32 {
    a >> 1
  }

  predicate Odd(a: bv32) {
    a & 1 == 1
  }

  /** What is left of a byte once its n lowest bits are gone. */
  function Rest(v: bv8, n: nat): bv32 {
    if n == 0 then v as bv32 else Half(Rest(v, n - 1))
  }

  /** Bit n of a message; a byte is sent from its least significant bit. */
  predicate Bit(data: seq<bv8>, n: nat)
    requires n < 8 * |data|
  {
    Odd(Rest(data[n / 8], n % 8))
  }

  /** The register after one message bit. */
  function Take(c: bv32, bit: bool): bv32 {
    if Odd(c) != bit then Xor(Half(c), POLYNOMIAL) else Half(c)
  }

  /** The register after the first n message bits. */
  function Register(c: bv32, data: seq<bv8>, n: nat): bv32
    requires n <= 8 * |data|
  {
    if n == 0 then c else Take(Register(c, data, n - 1), Bit(data, n - 1))
  }

  function Crc(data: seq<bv8>): bv32 {
    !Register(INITIAL, data, 8 * |data|)
  }

  // ----- Shifting is linear and can be undone

  function Shift(c: bv32): bv32 {
    Take(c, false)
  }

  function Shifts(c: bv32, n: nat): bv32 {
    if n == 0 then c else Shift(Shifts(c, n - 1))
  }

  lemma XorIsBitwise(a: bv32, b: bv32)
    ensures Odd(Xor(a, b)) == (Odd(a) != Odd(b))
    ensures Half(Xor(a, b)) == Xor(Half(a), Half(b))
  {
  }

  lemma XorLaws(x: bv32, y: bv32)
    ensures Xor(x, x) == 0 && Xor(x, 0) == x && Xor(0, x) == x
    ensures Xor(x, y) == 0 ==> x == y
  {
  }

  lemma Regroup(x: bv32, y: bv32, p: bv32)
    ensures Xor(Xor(x, p), y) == Xor(Xor(x, y), p)
    ensures Xor(x, Xor(y, p)) == Xor(Xor(x, y), p)
    ensures Xor(Xor(x, p), Xor(y, p)) == Xor(x, y)
  {
  }

  lemma TakeAdds(a: bv32, bit: bool, b: bv32, other: bool)
    ensures Take(Xor(a, b), bit != other) == Xor(Take(a, bit), Take(b, other))
  {
    hide Xor, Half, Odd;
    XorIsBitwise(a, b);
    Regroup(Half(a), Half(b), POLYNOMIAL);
  }

  lemma {:induction false} ShiftsAdd(a: bv32, b: bv32, n: nat)
    ensures Shifts(Xor(a, b), n) == Xor(Shifts(a, n), Shifts(b, n))
  {
    hide Xor, Take;
    if n > 0 {
      ShiftsAdd(a, b, n - 1);
      TakeAdds(Shifts(a, n - 1), false, Shifts(b, n - 1), false);
    }
  }

  function Double(x: bv32): bv32 {
    x << 1
  }

  lemma ShiftUndoes(x: bv32)
    requires x < 0x8000_0000
    ensures Shift(Double(x)) == x
  {
  }

  // ----- A byte at a time

  lemma TakeFromRest(c: bv32, rest: bv32)
    ensures Shift(Xor(c, rest)) == Xor(Take(c, Odd(rest)), Half(rest))
  {
    hide Xor, Half, Odd;
    XorIsBitwise(c, rest);
    Regroup(Half(c), Half(rest), POLYNOMIAL);
  }

  /** After k bits of byte i the register differs from the shifted sum by the rest of the byte. */
  lemma {:induction false} BitsOfByte(c: bv32, data: seq<bv8>, i: nat, k: nat)
    requires i < |data| && k <= 8
    ensures Xor(Register(c, data, 8 * i + k), Rest(data[i], k))
         == Shifts(Xor(Register(c, data, 8 * i), data[i] as bv32), k)
  {
    hide Xor, Half, Odd, Take;
    if k > 0 {
      BitsOfByte(c, data, i, k - 1);
      assert (8 * i + (k - 1)) / 8 == i && (8 * i + (k - 1)) % 8 == k - 1;
      TakeFromRest(Register(c, data, 8 * i + (k - 1)), Rest(data[i], k - 1));
    }
  }

  lemma NothingLeft(v: bv8)
    ensures Rest(v, 8) == 0
  {
    assert Rest(v, 1) == (v as bv32) >> 1;
    assert Rest(v, 2) == (v as bv32) >> 2;
    assert Rest(v, 3) == (v as bv32) >> 3;
    assert Rest(v, 4) == (v as bv32) >> 4;
    assert Rest(v, 5) == (v as bv32) >> 5;
    assert Rest(v, 6) == (v as bv32) >> 6;
    assert Rest(v, 7) == (v as bv32) >> 7;
  }

  /** Eight message bits at once. */
  lemma ByteAtOnce(c: bv32, data: seq<bv8>, i: nat)
    requires i < |data|
    ensures Register(c, data, 8 * (i + 1)) == Shifts(Xor(Register(c, data, 8 * i), data[i] as bv32), 8)
  {
    hide Xor, Shifts, Register;
    BitsOfByte(c, data, i, 8);
    NothingLeft(data[i]);
    XorLaws(Register(c, data, 8 * i + 8), 0);
  }

  function Up(x: bv32, n: nat): bv32 {
    if n == 0 then x else Double(Up(x, n - 1))
  }

  lemma {:induction false} ShiftsUndo(x: bv32, n: nat)
    requires forall k :: 0 <= k < n ==> Up(x, k) < 0x8000_0000
    ensures Shifts(Up(x, n), n) == x
    decreases n
  {
    hide Take, Double;
    if n > 0 {
      ShiftUndoes(Up(x, n - 1));
      ShiftsFirst(Up(x, n), n);
      ShiftsUndo(x, n - 1);
    }
  }

  lemma {:induction false} ShiftsFirst(c: bv32, n: nat)
    requires n > 0
    ensures Shifts(c, n) == Shifts(Shift(c), n - 1)
  {
    hide Shift;
    if n > 1 {
      ShiftsFirst(c, n - 1);
    }
  }

  function LowByte(c: bv32): bv32 {
    c & 0xff
  }

  function UpperBytes(c: bv32): bv32 {
    c >> 8
  }

  lemma DoubleShifts(x: bv32)
    ensures Double(x) == x << 1 && Double(x << 1) == x << 2 && Double(x << 2) == x << 3
    ensures Double(x << 3) == x << 4 && Double(x << 4) == x << 5 && Double(x << 5) == x << 6
    ensures Double(x << 6) == x << 7 && Double(x << 7) == x << 8
  {
  }

  /** Doubling n times shifts by n. */
  lemma UpIsShift(x: bv32)
    ensures Up(x, 0) == x && Up(x, 1) == x << 1 && Up(x, 2) == x << 2 && Up(x, 3) == x << 3
    ensures Up(x, 4) == x << 4 && Up(x, 5) == x << 5 && Up(x, 6) == x << 6 && Up(x, 7) == x << 7
    ensures Up(x, 8) == x << 8
  {
    hide Double;
    DoubleShifts(x);
  }

  lemma UpStaysSmall(x: bv32, n: nat)
    requires n <= 7 && x < 0x100_0000
    ensures Up(x, n) < 0x8000_0000
  {
    hide Up;
    UpIsShift(x);
    assert n == 0 || n == 1 || n == 2 || n == 3 || n == 4 || n == 5 || n == 6 || n == 7;
  }

  lemma SplitWord(c: bv32)
    ensures c == Xor(LowByte(c), UpperBytes(c) << 8)
    ensures UpperBytes(c) < 0x100_0000
  {
  }

  /** The three upper bytes only move down. */
  lemma UpperBytesMove(c: bv32)
    ensures Shifts(c, 8) == Xor(Shifts(LowByte(c), 8), UpperBytes(c))
  {
    hide *;
    SplitWord(c);
    UpIsShift(UpperBytes(c));
    forall k | 0 <= k < 8 ensures Up(UpperBytes(c), k) < 0x8000_0000 {
      UpStaysSmall(UpperBytes(c), k);
    }
    ShiftsAdd(LowByte(c), Up(UpperBytes(c), 8), 8);
    ShiftsUndo(UpperBytes(c), 8);
  }

  // ----- Changes that are always detected

  /** Bit n of the two messages differs. */
  predicate Differ(d: seq<bv8>, e: seq<bv8>, n: nat)
    requires n < 8 * |d| && |d| == |e|
  {
    Bit(d, n) != Bit(e, n)
  }

  function Difference(d: seq<bv8>, e: seq<bv8>, n: nat): bv32
    requires n <= 8 * |d| && |d| == |e|
  {
    Xor(Register(INITIAL, d, n), Register(INITIAL, e, n))
  }

  lemma DifferenceStep(d: seq<bv8>, e: seq<bv8>, n: nat)
    requires n < 8 * |d| && |d| == |e|
    ensures Difference(d, e, n + 1) == Take(Difference(d, e, n), Differ(d, e, n))
  {
    hide Xor, Take, Bit;
    TakeAdds(Register(INITIAL, d, n), Bit(d, n), Register(INITIAL, e, n), Bit(e, n));
  }

  /** No less than a floor that is no more than the highest bit. */
  predicate Above(x: bv32, floor: bv32) {
    floor <= x && floor <= 0x8000_0000
  }

  lemma TakeZero()
    ensures Take(0, false) == 0
    ensures Above(Take(0, true), 0x8000_0000)
  {
  }

  lemma TakeKeepsDifference(x: bv32)
    requires x != 0
    ensures Take(x, false) != 0
  {
  }

  lemma TakeHalvesAtMost(x: bv32, floor: bv32, bit: bool)
    requires Above(x, floor)
    ensures Above(Take(x, bit), Half(floor))
  {
  }

  function Floor(j: nat): bv32 {
    if j == 0 then 0x8000_0000 else Half(Floor(j - 1))
  }

  lemma {:induction false} FloorIsPositive(j: nat)
    requires j <= 31
    ensures Floor(j) > 0
    decreases 31 - j
  {
    if j == 31 {
      assert Floor(5) == 0x400_0000;
      assert Floor(10) == 0x20_0000;
      assert Floor(15) == 0x1_0000;
      assert Floor(20) == 0x800;
      assert Floor(25) == 0x40;
      assert Floor(30) == 2;
    } else {
      FloorIsPositive(j + 1);
    }
  }

  /** Once the registers differ by a difference in bit p, 31 more bits cannot bring them together. */
  lemma {:induction false} BurstStays(d: seq<bv8>, e: seq<bv8>, p: nat, j: nat)
    requires |d| == |e| && p + 1 + j <= 8 * |d| && j <= 31
    requires Difference(d, e, p) == 0 && Differ(d, e, p)
    ensures Above(Difference(d, e, p + 1 + j), Floor(j))
  {
    hide Xor, Take, Half, Above, Differ, Difference, Bit, Register;
    if j == 0 {
      DifferenceStep(d, e, p);
      TakeZero();
    } else {
      BurstStays(d, e, p, j - 1);
      DifferenceStep(d, e, p + j);
      TakeHalvesAtMost(Difference(d, e, p + j), Floor(j - 1), Differ(d, e, p + j));
    }
  }

  /** The messages agree from bit `from` up to bit `to`. */
  predicate Agree(d: seq<bv8>, e: seq<bv8>, from: nat, to: nat)
    requires |d| == |e| && to <= 8 * |d|
  {
    forall n :: from <= n < to ==> !Differ(d, e, n)
  }

  lemma {:induction false} EqualWhileAgreeing(d: seq<bv8>, e: seq<bv8>, n: nat)
    requires |d| == |e| && n <= 8 * |d| && Agree(d, e, 0, n)
    ensures Difference(d, e, n) == 0
  {
    assert Difference(d, e, 0) == 0;
    hide Xor, Take, Differ, Difference;
    if n > 0 {
      EqualWhileAgreeing(d, e, n - 1);
      DifferenceStep(d, e, n - 1);
      TakeZero();
    }
  }

  lemma {:induction false} DifferentForGood(d: seq<bv8>, e: seq<bv8>, from: nat, n: nat)
    requires |d| == |e| && from <= n <= 8 * |d| && Agree(d, e, from, n)
    requires Difference(d, e, from) != 0
    ensures Difference(d, e, n) != 0
  {
    hide Xor, Take, Differ, Difference;
    if from < n {
      DifferentForGood(d, e, from, n - 1);
      DifferenceStep(d, e, n - 1);
      TakeKeepsDifference(Difference(d, e, n - 1));
    }
  }

  /** A burst of at most 32 bits, wherever it lies, changes the code. */
  lemma BurstIsDetected(d: seq<bv8>, e: seq<bv8>, p: nat, q: nat)
    requires |d| == |e| && p < q <= 8 * |d| && q <= p + 32
    requires Agree(d, e, 0, p) && Differ(d, e, p) && Agree(d, e, q, 8 * |d|)
    ensures Crc(d) != Crc(e)
  {
    hide Xor, Take, Differ, Floor;
    EqualWhileAgreeing(d, e, p);
    BurstStays(d, e, p, q - p - 1);
    FloorIsPositive(q - p - 1);
    DifferentForGood(d, e, q, 8 * |d|);
    XorLaws(Register(INITIAL, d, 8 * |d|), 0);
  }
}

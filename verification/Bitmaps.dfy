/** Bitmaps of clusters in use, packed eight to a byte, and what is found in them. */
module Bitmaps {
  import opened Machine
  import opened FreeSpace

  function Bit(used: bool): nat {
    if used then 1 else 0
  }

  /** Eight clusters in one byte, the first in the least significant bit. */
  function PackByte(used: seq<bool>): byte
    requires |used| == 8
  {
    Bit(used[0]) + 2 * Bit(used[1]) + 4 * Bit(used[2]) + 8 * Bit(used[3])
    + 16 * Bit(used[4]) + 32 * Bit(used[5]) + 64 * Bit(used[6]) + 128 * Bit(used[7])
  }

  lemma QuotientIs(x: nat, m: nat, low: nat, q: nat)
    requires low < m && x == low + m * q
    ensures x / m == q
  {
    var d := q - x / m;
    assert x % m - low == m * d;
    assert d >= 1 ==> m * d >= m;
    assert d <= -1 ==> m * d + m <= 0;
  }

  /** A bit above low bits and below high ones. */
  lemma BitBetween(x: nat, m: nat, low: nat, used: bool, high: nat)
    requires low < m && x == low + m * (Bit(used) + 2 * high)
    ensures x / m % 2 == Bit(used)
  {
    QuotientIs(x, m, low, Bit(used) + 2 * high);
  }

  lemma BitOfPacked(used: seq<bool>, k: nat)
    requires |used| == 8 && k < 8
    ensures PackByte(used) / Pow2(k) % 2 == Bit(used[k])
  {
    PowersOfTwo();
    var b := PackByte(used);
    var b0, b1, b2, b3 := Bit(used[0]), Bit(used[1]), Bit(used[2]), Bit(used[3]);
    var b4, b5, b6, b7 := Bit(used[4]), Bit(used[5]), Bit(used[6]), Bit(used[7]);
    assert b0 <= 1 && b1 <= 1 && b2 <= 1 && b3 <= 1 && b4 <= 1 && b5 <= 1 && b6 <= 1 && b7 <= 1;
    assert b == b0 + 2 * b1 + 4 * b2 + 8 * b3 + 16 * b4 + 32 * b5 + 64 * b6 + 128 * b7;
    hide Pow2, PackByte, Bit;
    match k
    case 0 => BitBetween(b, 1, 0, used[0], b1 + 2 * b2 + 4 * b3 + 8 * b4 + 16 * b5 + 32 * b6 + 64 * b7);
    case 1 => BitBetween(b, 2, b0, used[1], b2 + 2 * b3 + 4 * b4 + 8 * b5 + 16 * b6 + 32 * b7);
    case 2 => BitBetween(b, 4, b0 + 2 * b1, used[2], b3 + 2 * b4 + 4 * b5 + 8 * b6 + 16 * b7);
    case 3 => BitBetween(b, 8, b0 + 2 * b1 + 4 * b2, used[3], b4 + 2 * b5 + 4 * b6 + 8 * b7);
    case 4 => BitBetween(b, 16, b0 + 2 * b1 + 4 * b2 + 8 * b3, used[4], b5 + 2 * b6 + 4 * b7);
    case 5 => BitBetween(b, 32, b0 + 2 * b1 + 4 * b2 + 8 * b3 + 16 * b4, used[5], b6 + 2 * b7);
    case 6 => BitBetween(b, 64, b0 + 2 * b1 + 4 * b2 + 8 * b3 + 16 * b4 + 32 * b5, used[6], b7);
    case 7 => BitBetween(b, 128, b0 + 2 * b1 + 4 * b2 + 8 * b3 + 16 * b4 + 32 * b5 + 64 * b6, used[7], 0);
  }

  lemma BitIs(u: bool)
    ensures Bit(u) == 0 <==> !u
  {
  }

  function Pack(groups: seq<seq<bool>>): (status: seq<byte>)
    requires forall i {:trigger groups[i]} :: 0 <= i < |groups| ==> |groups[i]| == 8
    ensures |status| == |groups|
    ensures forall i {:trigger status[i]} :: 0 <= i < |status| ==> status[i] == PackByte(groups[i])
  {
    seq(|groups|, i requires 0 <= i < |groups| => PackByte(groups[i]))
  }

  /** Whatever clusters are in use, the positions found in their bitmap are those of the others,
      counted from 1. */
  lemma PositionsOfPacked(groups: seq<seq<bool>>, p: nat)
    requires forall i {:trigger groups[i]} :: 0 <= i < |groups| ==> |groups[i]| == 8
    ensures p in FreePositions(Pack(groups), 8 * |groups|)
       <==> 1 <= p <= 8 * |groups| && !groups[(p - 1) / 8][(p - 1) % 8]
  {
    hide Pow2, PackByte, Bit, FreePositions;
    FreePositionsAreExact(Pack(groups), 8 * |groups|);
    if 1 <= p <= 8 * |groups| {
      var i, k := (p - 1) / 8, (p - 1) % 8;
      BitOfPacked(groups[i], k);
      BitIs(groups[i][k]);
      assert IsFree(Pack(groups), p - 1) <==> Pack(groups)[i] / Pow2(k) % 2 == 0;
    }
  }
}

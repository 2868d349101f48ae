/** Little-endian numbers of any width, and the two readers used for run lists. */
module LittleEndian {
  import opened Machine

  function Pow256(n: nat): (p: nat)
    ensures p >= 1
  {
    if n == 0 then 1 else 256 * Pow256(n - 1)
  }

  /** The number that the bytes spell, least significant byte first. */
  function Unsigned(bs: seq<byte>): nat {
    if bs == [] then 0 else bs[0] + 256 * Unsigned(bs[1..])
  }

  /** The same in two's complement of width |bs|. */
  function Signed(bs: seq<byte>): int {
    if bs != [] && bs[|bs| - 1] >= 0x80 then Unsigned(bs) - Pow256(|bs|) else Unsigned(bs)
  }

  function Bytes(x: nat, width: nat): (bs: seq<byte>)
    ensures |bs| == width
  {
    if width == 0 then [] else [x % 256] + Bytes(x / 256, width - 1)
  }

  // ----- Facts about the notation

  lemma {:induction false} UnsignedBound(bs: seq<byte>)
    ensures Unsigned(bs) < Pow256(|bs|)
  {
    if bs != [] {
      UnsignedBound(bs[1..]);
    }
  }

  lemma {:induction false} UnsignedConcat(a: seq<byte>, b: seq<byte>)
    ensures Unsigned(a + b) == Unsigned(a) + Pow256(|a|) * Unsigned(b)
  {
    if a == [] {
      assert a + b == b;
    } else {
      assert (a + b)[1..] == a[1..] + b;
      UnsignedConcat(a[1..], b);
    }
  }

  lemma {:induction false} UnsignedBytes(x: nat, width: nat)
    requires x < Pow256(width)
    ensures Unsigned(Bytes(x, width)) == x
  {
    if width > 0 {
      UnsignedBytes(x / 256, width - 1);
      assert Bytes(x, width)[1..] == Bytes(x / 256, width - 1);
    }
  }

  /** The last byte holds the sign. */
  lemma LastByte(bs: seq<byte>)
    requires bs != []
    ensures var half := 128 * Pow256(|bs| - 1); bs[|bs| - 1] >= 0x80 <==> Unsigned(bs) >= half
    ensures Pow256(|bs|) == 2 * (128 * Pow256(|bs| - 1))
  {
    var last := |bs| - 1;
    assert bs == bs[..last] + [bs[last]];
    UnsignedConcat(bs[..last], [bs[last]]);
    UnsignedBound(bs[..last]);
    assert Unsigned([bs[last]]) == bs[last];
    if bs[last] >= 0x80 {
      MulMono(Pow256(last), 128, bs[last]);
    } else {
      MulMono(Pow256(last), bs[last], 127);
    }
  }

  lemma MulMono(p: nat, x: int, y: int)
    requires x <= y
    ensures p * x <= p * y
  {
  }

  lemma MulSub(p: int, x: int, y: int)
    ensures p * (x - y) == p * x - p * y
  {
  }

  lemma SignedRange(bs: seq<byte>)
    requires bs != []
    ensures var half := 128 * Pow256(|bs| - 1); -half <= Signed(bs) < half
  {
    LastByte(bs);
    UnsignedBound(bs);
  }

  lemma SignedConcat(a: seq<byte>, b: seq<byte>)
    requires b != []
    ensures Signed(a + b) == Unsigned(a) + Pow256(|a|) * Signed(b)
  {
    hide Unsigned, Pow256;
    UnsignedConcat(a, b);
    assert (a + b)[|a + b| - 1] == b[|b| - 1];
    if b[|b| - 1] >= 0x80 {
      PowSum(|a|, |b|);
      assert Pow256(|a + b|) == Pow256(|a|) * Pow256(|b|);
      MulSub(Pow256(|a|), Unsigned(b), Pow256(|b|));
      assert Signed(b) == Unsigned(b) - Pow256(|b|);
    }
  }

  lemma {:induction false} PowSum(m: nat, n: nat)
    ensures Pow256(m + n) == Pow256(m) * Pow256(n)
  {
    if m > 0 {
      PowSum(m - 1, n);
    }
  }

  lemma SmallPowers()
    ensures Pow256(0) == 1 && Pow256(1) == 0x100 && Pow256(2) == 0x1_0000
    ensures Pow256(3) == 0x100_0000 && Pow256(4) == TWO_TO_32 && Pow256(8) == TWO_TO_64
  {
    PowSum(4, 4);
  }

  // ----- The readers

  lemma AddIn64Bits(a: int, b: int)
    ensures ToUint64(ToUint64(a) + ToUint64(b)) == ToUint64(a + b)
  {
  }

  /** Adds up shifted bytes in 64 bits. */
  method ReadEndianUInt(bs: seq<byte>) returns (sum: uint64)
    ensures sum == ToUint64(Unsigned(bs))
  {
    sum := 0;
    for index := 0 to |bs|
      invariant sum == ToUint64(Unsigned(bs[..index]))
    {
      assert bs[..index + 1] == bs[..index] + [bs[index]];
      UnsignedConcat(bs[..index], [bs[index]]);
      var shifted := Pow256(index) * bs[index];
      AddIn64Bits(Unsigned(bs[..index]), shifted);
      sum := ToUint64(sum + ToUint64(shifted));
    }
    assert bs[..|bs|] == bs;
  }

  function ToInt32(x: int): int {
    (x + 0x8000_0000) % 0x1_0000_0000 - 0x8000_0000
  }

  /** Four bytes, filled with the sign of the last byte given, then overwritten. */
  function ReadEndianInt(bs: seq<byte>): int {
    var fill: byte := if bs != [] && bs[|bs| - 1] >= 0x80 then 0xff else 0;
    var n := if |bs| < 4 then |bs| else 4;
    ToInt32(Unsigned(bs[..n] + [fill, fill, fill, fill][..4 - n]))
  }

  lemma ToInt32Is(x: int)
    requires 0 <= x < TWO_TO_32
    ensures ToInt32(x) == if x >= 0x8000_0000 then x - TWO_TO_32 else x
  {
  }

  lemma ShortInt(bs: seq<byte>)
    requires |bs| <= 4
    ensures ReadEndianInt(bs) == Signed(bs)
  {
    SmallPowers();
    var fill: byte := if bs != [] && bs[|bs| - 1] >= 0x80 then 0xff else 0;
    var pad := [fill, fill, fill, fill][..4 - |bs|];
    assert bs[..|bs|] == bs;
    UnsignedConcat(bs, pad);
    UnsignedBound(bs);
    PadIs(fill, 4 - |bs|, pad);
    PowSum(|bs|, 4 - |bs|);
    var p, q := Pow256(|bs|), Pow256(4 - |bs|);
    if bs != [] {
      LastByte(bs);
    }
    if fill == 0xff {
      assert p * (q - 1) == TWO_TO_32 - p;
      assert q >= 1 && p * (q - 1) >= 0;
      assert Unsigned(bs + pad) == Unsigned(bs) + TWO_TO_32 - p;
      HalfIsEnough(bs);
    } else {
      assert Unsigned(bs + pad) == Unsigned(bs);
      HalfIsEnough(bs);
    }
    UnsignedBound(bs + pad);
    ToInt32Is(Unsigned(bs + pad));
  }

  lemma HalfIsEnough(bs: seq<byte>)
    requires |bs| <= 4
    ensures -0x8000_0000 <= Signed(bs) < 0x8000_0000
    ensures bs != [] && bs[|bs| - 1] >= 0x80 ==> Signed(bs) < 0
    ensures Unsigned(bs) >= 0 && (Signed(bs) >= 0 ==> Signed(bs) == Unsigned(bs))
  {
    SmallPowers();
    UnsignedBound(bs);
    if bs != [] {
      SignedRange(bs);
      assert |bs| == 1 || |bs| == 2 || |bs| == 3 || |bs| == 4;
    }
  }

  lemma {:induction false} PadIs(fill: byte, n: nat, pad: seq<byte>)
    requires |pad| == n && (forall i :: 0 <= i < n ==> pad[i] == fill) && (fill == 0 || fill == 0xff)
    ensures Unsigned(pad) == if fill == 0xff then Pow256(n) - 1 else 0
  {
    if n > 0 {
      PadIs(fill, n - 1, pad[1..]);
    }
  }

  /** The signed reader is exact precisely on the numbers that fit 32 bits: up to four
      bytes always, more bytes only by luck. */
  lemma SignedReaderExact(bs: seq<byte>)
    ensures ReadEndianInt(bs) == Signed(bs) <==> -0x8000_0000 <= Signed(bs) < 0x8000_0000
    ensures |bs| <= 4 ==> ReadEndianInt(bs) == Signed(bs)
  {
    if |bs| <= 4 {
      ShortInt(bs);
      HalfIsEnough(bs);
    } else {
      var a, b := bs[..4], bs[4..];
      assert bs == a + b;
      SmallPowers();
      SignedConcat(a, b);
      UnsignedBound(a);
      assert a + [] == a;
      ToInt32Is(Unsigned(a));
    }
  }

  /** Five bytes that spell 2^32 are read as zero. */
  lemma WideOffsetIsLost()
    ensures Signed([0, 0, 0, 0, 1]) == TWO_TO_32
    ensures ReadEndianInt([0, 0, 0, 0, 1]) == 0
  {
    var low, high: seq<byte> := [0, 0, 0, 0], [1];
    var bs := low + high;
    assert bs == [0, 0, 0, 0, 1];
    SmallPowers();
    PadIs(0, 4, low);
    assert Signed(high) == 1;
    SignedConcat(low, high);
    assert bs[..4] + [] == low;
    ToInt32Is(0);
  }
}

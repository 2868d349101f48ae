/** The table of utils/crc32.go, eight entries to a row and eight rows to a quarter, and the
    checksum computed with it one byte at a time. */
module Crc32cTable {
  import opened Crc32c

  datatype Row = Row(e0: bv32, e1: bv32, e2: bv32, e3: bv32, e4: bv32, e5: bv32, e6: bv32, e7: bv32)

  function FirstQuarter(r: bv8): Row {
    match r
    case 0 =>
      Row(0x00000000, 0xf26b8303, 0xe13b70f7, 0x1350f3f4,
          0xc79a971f, 0x35f1141c, 0x26a1e7e8, 0xd4ca64eb)
    case 1 =>
      Row(0x8ad958cf, 0x78b2dbcc, 0x6be22838, 0x9989ab3b,
          0x4d43cfd0, 0xbf284cd3, 0xac78bf27, 0x5e133c24)
    case 2 =>
      Row(0x105ec76f, 0xe235446c, 0xf165b798, 0x030e349b,
          0xd7c45070, 0x25afd373, 0x36ff2087, 0xc494a384)
    case 3 =>
      Row(0x9a879fa0, 0x68ec1ca3, 0x7bbcef57, 0x89d76c54,
          0x5d1d08bf, 0xaf768bbc, 0xbc267848, 0x4e4dfb4b)
    case 4 =>
      Row(0x20bd8ede, 0xd2d60ddd, 0xc186fe29, 0x33ed7d2a,
          0xe72719c1, 0x154c9ac2, 0x061c6936, 0xf477ea35)
    case 5 =>
      Row(0xaa64d611, 0x580f5512, 0x4b5fa6e6, 0xb93425e5,
          0x6dfe410e, 0x9f95c20d, 0x8cc531f9, 0x7eaeb2fa)
    case 6 =>
      Row(0x30e349b1, 0xc288cab2, 0xd1d83946, 0x23b3ba45,
          0xf779deae, 0x05125dad, 0x1642ae59, 0xe4292d5a)
    case _ =>
      Row(0xba3a117e, 0x4851927d, 0x5b016189, 0xa96ae28a,
          0x7da08661, 0x8fcb0562, 0x9c9bf696, 0x6ef07595)
  }

  function SecondQuarter(r: bv8): Row {
    match r
    case 8 =>
      Row(0x417b1dbc, 0xb3109ebf, 0xa0406d4b, 0x522bee48,
          0x86e18aa3, 0x748a09a0, 0x67dafa54, 0x95b17957)
    case 9 =>
      Row(0xcba24573, 0x39c9c670, 0x2a993584, 0xd8f2b687,
          0x0c38d26c, 0xfe53516f, 0xed03a29b, 0x1f682198)
    case 10 =>
      Row(0x5125dad3, 0xa34e59d0, 0xb01eaa24, 0x42752927,
          0x96bf4dcc, 0x64d4cecf, 0x77843d3b, 0x85efbe38)
    case 11 =>
      Row(0xdbfc821c, 0x2997011f, 0x3ac7f2eb, 0xc8ac71e8,
          0x1c661503, 0xee0d9600, 0xfd5d65f4, 0x0f36e6f7)
    case 12 =>
      Row(0x61c69362, 0x93ad1061, 0x80fde395, 0x72966096,
          0xa65c047d, 0x5437877e, 0x4767748a, 0xb50cf789)
    case 13 =>
      Row(0xeb1fcbad, 0x197448ae, 0x0a24bb5a, 0xf84f3859,
          0x2c855cb2, 0xdeeedfb1, 0xcdbe2c45, 0x3fd5af46)
    case 14 =>
      Row(0x7198540d, 0x83f3d70e, 0x90a324fa, 0x62c8a7f9,
          0xb602c312, 0x44694011, 0x5739b3e5, 0xa55230e6)
    case _ =>
      Row(0xfb410cc2, 0x092a8fc1, 0x1a7a7c35, 0xe811ff36,
          0x3cdb9bdd, 0xceb018de, 0xdde0eb2a, 0x2f8b6829)
  }

  function ThirdQuarter(r: bv8): Row {
    match r
    case 16 =>
      Row(0x82f63b78, 0x709db87b, 0x63cd4b8f, 0x91a6c88c,
          0x456cac67, 0xb7072f64, 0xa457dc90, 0x563c5f93)
    case 17 =>
      Row(0x082f63b7, 0xfa44e0b4, 0xe9141340, 0x1b7f9043,
          0xcfb5f4a8, 0x3dde77ab, 0x2e8e845f, 0xdce5075c)
    case 18 =>
      Row(0x92a8fc17, 0x60c37f14, 0x73938ce0, 0x81f80fe3,
          0x55326b08, 0xa759e80b, 0xb4091bff, 0x466298fc)
    case 19 =>
      Row(0x1871a4d8, 0xea1a27db, 0xf94ad42f, 0x0b21572c,
          0xdfeb33c7, 0x2d80b0c4, 0x3ed04330, 0xccbbc033)
    case 20 =>
      Row(0xa24bb5a6, 0x502036a5, 0x4370c551, 0xb11b4652,
          0x65d122b9, 0x97baa1ba, 0x84ea524e, 0x7681d14d)
    case 21 =>
      Row(0x2892ed69, 0xdaf96e6a, 0xc9a99d9e, 0x3bc21e9d,
          0xef087a76, 0x1d63f975, 0x0e330a81, 0xfc588982)
    case 22 =>
      Row(0xb21572c9, 0x407ef1ca, 0x532e023e, 0xa145813d,
          0x758fe5d6, 0x87e466d5, 0x94b49521, 0x66df1622)
    case _ =>
      Row(0x38cc2a06, 0xcaa7a905, 0xd9f75af1, 0x2b9cd9f2,
          0xff56bd19, 0x0d3d3e1a, 0x1e6dcdee, 0xec064eed)
  }

  function FourthQuarter(r: bv8): Row {
    match r
    case 24 =>
      Row(0xc38d26c4, 0x31e6a5c7, 0x22b65633, 0xd0ddd530,
          0x0417b1db, 0xf67c32d8, 0xe52cc12c, 0x1747422f)
    case 25 =>
      Row(0x49547e0b, 0xbb3ffd08, 0xa86f0efc, 0x5a048dff,
          0x8ecee914, 0x7ca56a17, 0x6ff599e3, 0x9d9e1ae0)
    case 26 =>
      Row(0xd3d3e1ab, 0x21b862a8, 0x32e8915c, 0xc083125f,
          0x144976b4, 0xe622f5b7, 0xf5720643, 0x07198540)
    case 27 =>
      Row(0x590ab964, 0xab613a67, 0xb831c993, 0x4a5a4a90,
          0x9e902e7b, 0x6cfbad78, 0x7fab5e8c, 0x8dc0dd8f)
    case 28 =>
      Row(0xe330a81a, 0x115b2b19, 0x020bd8ed, 0xf0605bee,
          0x24aa3f05, 0xd6c1bc06, 0xc5914ff2, 0x37faccf1)
    case 29 =>
      Row(0x69e9f0d5, 0x9b8273d6, 0x88d28022, 0x7ab90321,
          0xae7367ca, 0x5c18e4c9, 0x4f48173d, 0xbd23943e)
    case 30 =>
      Row(0xf36e6f75, 0x0105ec76, 0x12551f82, 0xe03e9c81,
          0x34f4f86a, 0xc69f7b69, 0xd5cf889d, 0x27a40b9e)
    case _ =>
      Row(0x79b737ba, 0x8bdcb4b9, 0x988c474d, 0x6ae7c44e,
          0xbe2da0a5, 0x4c4623a6, 0x5f16d052, 0xad7d5351)
  }

  function TableRow(r: bv8): Row {
    if r < 8 then FirstQuarter(r)
    else if r < 16 then SecondQuarter(r)
    else if r < 24 then ThirdQuarter(r)
    else FourthQuarter(r)
  }

  function Column(row: Row, k: bv8): bv32 {
    match k
    case 0 => row.e0
    case 1 => row.e1
    case 2 => row.e2
    case 3 => row.e3
    case 4 => row.e4
    case 5 => row.e5
    case 6 => row.e6
    case _ => row.e7
  }

  /** crctable[i] */
  function Entry(i: bv8): bv32 {
    Column(TableRow(i >> 3), i & 7)
  }

  // ----- Every entry is the shifted index

  function Part(bit: bool, w: bv32): bv32 {
    if bit then w else 0
  }

  /** Adds the words that belong to the set bits of i. */
  function Pick(i: bv8, w: Row): bv32 {
    Xor(Xor(Xor(Part(i & 1 != 0, w.e0), Part(i & 2 != 0, w.e1)),
            Xor(Part(i & 4 != 0, w.e2), Part(i & 8 != 0, w.e3))),
        Xor(Xor(Part(i & 16 != 0, w.e4), Part(i & 32 != 0, w.e5)),
            Xor(Part(i & 64 != 0, w.e6), Part(i & 128 != 0, w.e7))))
  }

  const POWERS: Row := Row(1, 2, 4, 8, 16, 32, 64, 128)

  /** The entries at the powers of two. */
  const BASIS: Row :=
    Row(0xf26b8303, 0xe13b70f7, 0xc79a971f, 0x8ad958cf, 0x105ec76f, 0x20bd8ede, 0x417b1dbc, 0x82f63b78)

  function Sum(i: bv8): bv32 {
    Pick(i, BASIS)
  }

  predicate Adds(row: Row, i: bv8) {
    row == Row(Sum(i), Sum(i | 1), Sum(i | 2), Sum(i | 3), Sum(i | 4), Sum(i | 5), Sum(i | 6), Sum(i | 7))
  }

  lemma FirstQuarterAdds(r: bv8)
    requires r < 8
    ensures Adds(FirstQuarter(r), r << 3)
  {
  }

  lemma SecondQuarterAdds(r: bv8)
    requires 8 <= r < 16
    ensures Adds(SecondQuarter(r), r << 3)
  {
  }

  lemma ThirdQuarterAdds(r: bv8)
    requires 16 <= r < 24
    ensures Adds(ThirdQuarter(r), r << 3)
  {
  }

  lemma FourthQuarterAdds(r: bv8)
    requires 24 <= r < 32
    ensures Adds(FourthQuarter(r), r << 3)
  {
  }

  lemma SplitIndex(i: bv8)
    ensures i >> 3 < 32
    ensures var h, k := (i >> 3) << 3, i & 7;
      || (k == 0 && i == h) || (k == 1 && i == h | 1) || (k == 2 && i == h | 2)
      || (k == 3 && i == h | 3) || (k == 4 && i == h | 4) || (k == 5 && i == h | 5)
      || (k == 6 && i == h | 6) || (k == 7 && i == h | 7)
  {
  }

  lemma EntryIsSum(i: bv8)
    ensures Entry(i) == Sum(i)
  {
    hide Sum, FirstQuarter, SecondQuarter, ThirdQuarter, FourthQuarter;
    SplitIndex(i);
    var r := i >> 3;
    if r < 8 {
      FirstQuarterAdds(r);
    } else if r < 16 {
      SecondQuarterAdds(r);
    } else if r < 24 {
      ThirdQuarterAdds(r);
    } else {
      FourthQuarterAdds(r);
    }
  }

  function ShiftRow(w: Row): Row {
    Row(Shifts(w.e0, 8), Shifts(w.e1, 8), Shifts(w.e2, 8), Shifts(w.e3, 8),
        Shifts(w.e4, 8), Shifts(w.e5, 8), Shifts(w.e6, 8), Shifts(w.e7, 8))
  }

  lemma BasisIsShifted()
    ensures ShiftRow(POWERS) == BASIS
    ensures Shifts(0, 8) == 0
  {
  }

  lemma PartShifts(bit: bool, w: bv32)
    ensures Shifts(Part(bit, w), 8) == Part(bit, Shifts(w, 8))
  {
    BasisIsShifted();
  }

  lemma AllPartsShift(i: bv8, w: Row)
    ensures Shifts(Pick(i, w), 8) == Pick(i, ShiftRow(w))
  {
    hide Xor, Shifts, Part;
    var p0, p1 := Part(i & 1 != 0, w.e0), Part(i & 2 != 0, w.e1);
    var p2, p3 := Part(i & 4 != 0, w.e2), Part(i & 8 != 0, w.e3);
    var p4, p5 := Part(i & 16 != 0, w.e4), Part(i & 32 != 0, w.e5);
    var p6, p7 := Part(i & 64 != 0, w.e6), Part(i & 128 != 0, w.e7);
    PartShifts(i & 1 != 0, w.e0);
    PartShifts(i & 2 != 0, w.e1);
    PartShifts(i & 4 != 0, w.e2);
    PartShifts(i & 8 != 0, w.e3);
    PartShifts(i & 16 != 0, w.e4);
    PartShifts(i & 32 != 0, w.e5);
    PartShifts(i & 64 != 0, w.e6);
    PartShifts(i & 128 != 0, w.e7);
    ShiftsAdd(p0, p1, 8);
    ShiftsAdd(p2, p3, 8);
    ShiftsAdd(p4, p5, 8);
    ShiftsAdd(p6, p7, 8);
    ShiftsAdd(Xor(p0, p1), Xor(p2, p3), 8);
    ShiftsAdd(Xor(p4, p5), Xor(p6, p7), 8);
    ShiftsAdd(Xor(Xor(p0, p1), Xor(p2, p3)), Xor(Xor(p4, p5), Xor(p6, p7)), 8);
  }

  lemma PowersAddUp(i: bv8)
    ensures Pick(i, POWERS) == i as bv32
  {
  }

  /** Every entry of the table is its index after eight one-bit shifts. */
  lemma TableIsShifts(i: bv8)
    ensures Entry(i) == Shifts(i as bv32, 8)
  {
    hide Entry, Pick, Shifts;
    EntryIsSum(i);
    PowersAddUp(i);
    AllPartsShift(i, POWERS);
    BasisIsShifted();
  }

  // ----- The checksum, a byte at a time

  function Low(c: bv32): bv8 {
    (c & 0xff) as bv8
  }

  /** The register after one more message byte, by table. */
  function Update(c: bv32, v: bv8): bv32 {
    Xor(Entry(Low(c) ^ v), c >> 8)
  }

  lemma LowAndUpper(c: bv32, v: bv8)
    ensures LowByte(Xor(c, v as bv32)) == (Low(c) ^ v) as bv32
    ensures UpperBytes(Xor(c, v as bv32)) == c >> 8
  {
  }

  lemma UpdateIsShifts(c: bv32, v: bv8)
    ensures Update(c, v) == Shifts(Xor(c, v as bv32), 8)
  {
    hide Xor, Entry, Shifts, LowByte, UpperBytes, Low;
    LowAndUpper(c, v);
    TableIsShifts(Low(c) ^ v);
    UpperBytesMove(Xor(c, v as bv32));
  }

  lemma Start(c: bv32, data: seq<bv8>)
    ensures Register(c, data, 0) == c
  {
  }

  lemma UpdateTakesByte(c: bv32, data: seq<bv8>, i: nat)
    requires i < |data|
    ensures Register(c, data, 8 * (i + 1)) == Update(Register(c, data, 8 * i), data[i])
  {
    hide Xor, Update, Register, Shifts;
    ByteAtOnce(c, data, i);
    UpdateIsShifts(Register(c, data, 8 * i), data[i]);
  }

  /** The library's loop over the table computes the bit-at-a-time code. */
  method CalcCRC32(data: seq<bv8>) returns (crc: bv32)
    ensures crc == Crc(data)
  {
    hide Update, Register;
    var c: bv32 := INITIAL;
    Start(INITIAL, data);
    for i := 0 to |data|
      invariant c == Register(INITIAL, data, 8 * i)
    {
      UpdateTakesByte(INITIAL, data, i);
      c := Update(c, data[i]);
    }
    crc := !c;
  }
}

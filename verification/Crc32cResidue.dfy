/** What fixes the code itself, beyond the changes that it detects: known values, and the
    residue of a message that is followed by its own code. */
module Crc32cResidue {
  import opened Crc32c
  import opened Crc32cTable
  import opened NodeChecksum

  // ----- Known values

  lemma EmptyMessage()
    ensures Crc([]) == 0
  {
    assert Register(INITIAL, [], 0) == INITIAL;
  }

  const DIGITS: seq<bv8> := [0x31, 0x32, 0x33, 0x34, 0x35, 0x36, 0x37, 0x38, 0x39]

  lemma NineUpdates()
    ensures Update(0xffffffff, 0x31) == 0x6f0a661c
    ensures Update(0x6f0a661c, 0x32) == 0x8caa3b9f
    ensures Update(0x8caa3b9f, 0x33) == 0xef84d04d
    ensures Update(0xef84d04d, 0x34) == 0x09c50b11
    ensures Update(0x09c50b11, 0x35) == 0xe72edcca
    ensures Update(0xe72edcca, 0x36) == 0xbeca8e79
    ensures Update(0xbeca8e79, 0x37) == 0xedbd6815
    ensures Update(0xedbd6815, 0x38) == 0x9f787f65
    ensures Update(0x9f787f65, 0x39) == 0x1cf96d7c
  {
  }

  /** The nine ASCII digits from 1 to 9. */
  lemma NineDigits()
    ensures Crc(DIGITS) == 0xe306_9283
  {
    hide Update, Register;
    NineUpdates();
    Start(INITIAL, DIGITS);
    UpdateTakesByte(INITIAL, DIGITS, 0);
    UpdateTakesByte(INITIAL, DIGITS, 1);
    UpdateTakesByte(INITIAL, DIGITS, 2);
    UpdateTakesByte(INITIAL, DIGITS, 3);
    UpdateTakesByte(INITIAL, DIGITS, 4);
    UpdateTakesByte(INITIAL, DIGITS, 5);
    UpdateTakesByte(INITIAL, DIGITS, 6);
    UpdateTakesByte(INITIAL, DIGITS, 7);
    UpdateTakesByte(INITIAL, DIGITS, 8);
  }

  // ----- The residue

  const RESIDUE: bv32 := 0x4867_4bc7

  function Down(x: bv32): bv32 {
    x >> 8
  }

  function Not(x: bv32): bv32 {
    !x
  }

  /** The four bytes of a word, the least significant first. */
  function WordBytes(w: bv32): (bytes: seq<bv8>)
    ensures |bytes| == 4
  {
    [Low(w), Low(w >> 8), Low(w >> 16), Low(w >> 24)]
  }

  /** The register without what it shares with the message, after one byte of the complement. */
  function Next(k: bv32): bv32 {
    Xor(Entry(Low(k) ^ 0xff), Down(k))
  }

  lemma LowAdds(a: bv32, b: bv32)
    ensures Low(Xor(a, b)) == Low(a) ^ Low(b)
  {
  }

  lemma LowOfComplement(y: bv32)
    ensures Low(Not(y)) == Low(y) ^ 0xff
  {
  }

  lemma DownAdds(a: bv32, b: bv32)
    ensures Down(Xor(a, b)) == Xor(Down(a), Down(b))
  {
  }

  lemma Cancels(a: bv8, b: bv8)
    ensures (a ^ b) ^ (b ^ 0xff) == a ^ 0xff
  {
  }

  lemma Reorder(x: bv32, y: bv32, z: bv32)
    ensures Xor(x, Xor(y, z)) == Xor(Xor(x, y), z)
  {
  }

  /** What is left of the register only moves down, and the rest does not depend on it. */
  lemma UpdateByComplement(k: bv32, y: bv32)
    ensures Update(Xor(k, y), Low(Not(y))) == Xor(Next(k), Down(y))
  {
    UpdateIs(Xor(k, y), Low(Not(y)));
    hide Xor, Entry, Low, Down, Not, Update;
    LowAdds(k, y);
    LowOfComplement(y);
    Cancels(Low(k), Low(y));
    DownAdds(k, y);
    Reorder(Entry(Low(k) ^ 0xff), Down(k), Down(y));
  }

  lemma UpdateIs(c: bv32, v: bv8)
    ensures Update(c, v) == Xor(Entry(Low(c) ^ v), Down(c))
  {
    hide Xor, Entry, Low;
  }

  lemma FourNexts()
    ensures Next(0x00000000) == 0xad7d5351
    ensures Next(0xad7d5351) == 0x0e9e77d2
    ensures Next(0x0e9e77d2) == 0x9f9b5c7a
    ensures Next(0x9f9b5c7a) == 0xb798b438
  {
  }

  lemma DownOfComplement(c: bv32)
    ensures Low(Not(c) >> 8) == Low(Not(Down(c)))
    ensures Low(Not(c) >> 16) == Low(Not(Down(Down(c))))
    ensures Low(Not(c) >> 24) == Low(Not(Down(Down(Down(c)))))
  {
  }

  lemma NothingRemains(c: bv32)
    ensures Down(Down(Down(Down(c)))) == 0
  {
  }

  lemma XorWithZero(x: bv32)
    ensures Xor(0, x) == x && Xor(x, 0) == x
  {
  }

  /** Any register, fed with the bytes of its own complement, comes to the same end. */
  lemma FourUpdates(c: bv32, b: seq<bv8>)
    requires b == WordBytes(Not(c))
    ensures Update(Update(Update(Update(c, b[0]), b[1]), b[2]), b[3]) == 0xb798_b438
  {
    DownOfComplement(c);
    var b1, b2, b3 := Low(Not(Down(c))), Low(Not(Down(Down(c)))), Low(Not(Down(Down(Down(c)))));
    assert b == [Low(Not(c)), b1, b2, b3];
    hide Update, Xor, Next, Low, Down, Not, WordBytes;
    FourNexts();
    XorWithZero(c);
    UpdateByComplement(0x00000000, c);
    UpdateByComplement(0xad7d5351, Down(c));
    UpdateByComplement(0x0e9e77d2, Down(Down(c)));
    UpdateByComplement(0x9f9b5c7a, Down(Down(Down(c))));
    NothingRemains(c);
    XorWithZero(0xb798_b438);
  }

  lemma {:induction false} RegisterOfFront(data: seq<bv8>, more: seq<bv8>, n: nat)
    requires n <= 8 * |data|
    ensures Register(INITIAL, data + more, n) == Register(INITIAL, data, n)
  {
    hide Take, Odd, Rest;
    if n > 0 {
      RegisterOfFront(data, more, n - 1);
      assert (data + more)[(n - 1) / 8] == data[(n - 1) / 8];
    }
  }

  lemma RegisterOfFour(data: seq<bv8>, b: seq<bv8>)
    requires |b| == 4
    ensures Register(INITIAL, data + b, 8 * |data + b|)
         == Update(Update(Update(Update(Register(INITIAL, data, 8 * |data|), b[0]), b[1]), b[2]), b[3])
  {
    hide Update, Register;
    var all, n := data + b, |data|;
    RegisterOfFront(data, b, 8 * n);
    UpdateTakesByte(INITIAL, all, n);
    UpdateTakesByte(INITIAL, all, n + 1);
    UpdateTakesByte(INITIAL, all, n + 2);
    UpdateTakesByte(INITIAL, all, n + 3);
  }

  lemma CodeIs(data: seq<bv8>)
    ensures Crc(data) == Not(Register(INITIAL, data, 8 * |data|))
    ensures Not(0xb798_b438) == RESIDUE
  {
    hide Register;
  }

  /** The code of a message that is followed by its own code, least significant byte first, is
      the same for all messages. */
  lemma CodeOfCode(data: seq<bv8>)
    ensures Crc(data + WordBytes(Crc(data))) == RESIDUE
  {
    hide Update, Register, WordBytes, Crc, Not;
    CodeIs(data);
    var code := WordBytes(Crc(data));
    FourUpdates(Register(INITIAL, data, 8 * |data|), code);
    RegisterOfFour(data, code);
    CodeIs(data + code);
  }

  /** And no other four bytes behind a message give that code. */
  lemma ResidueIff(data: seq<bv8>, code: seq<bv8>)
    requires |code| == 4
    ensures Crc(data + code) == RESIDUE <==> code == WordBytes(Crc(data))
  {
    hide Crc, WordBytes;
    CodeOfCode(data);
    var a, b := data + code, data + WordBytes(Crc(data));
    if code != WordBytes(Crc(data)) {
      assert a[|data|..] == code && b[|data|..] == WordBytes(Crc(data));
      FourBytesAreDetected(a, b, |data|);
    }
  }

  lemma WordIsItsBytes(w: bv32)
    ensures ToUint32(WordBytes(w)) == w
  {
  }

  /** A node passes if and only if its body followed by the first four checksum bytes has the
      residue as its code. */
  lemma PassesIffResidue(chksum: seq<bv8>, data: seq<bv8>)
    requires |chksum| == 32 && |data| >= 32
    ensures Passes(chksum, data) <==> Crc(data[32..] + chksum[..4]) == RESIDUE
  {
    hide Crc, ToUint32, WordBytes;
    var code, own := chksum[..4], WordBytes(Crc(data[32..]));
    ResidueIff(data[32..], code);
    WordIsItsBytes(Crc(data[32..]));
    ToUint32IsInjective(chksum, own);
    assert code == own <==> code[0] == own[0] && code[1] == own[1] && code[2] == own[2] && code[3] == own[3];
  }
}

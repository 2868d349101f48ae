/** Where the fields of a structure lie, in bytes from its start. */
module Layouts {
  import opened Machine
  import opened LittleEndian
  import opened Unmarshalling
  import opened SystemChunks

  /** The number in these bytes, the least significant first. */
  function NumberAt(s: Slice, at: nat, width: nat): Value
    requires s.lo + at + width <= |s.store|
  {
    Number(Unsigned(Peek(s.store, s.lo + at, width)))
  }

  function SignedAt(s: Slice, at: nat): Value
    requires s.lo + at + 8 <= |s.store|
  {
    Number(Signed(Peek(s.store, s.lo + at, 8)))
  }

  /** One field of each kind. */
  const ONE_OF_EACH: seq<Kind> :=
    [U8, U16, U32, U64, I64, ParRef, Flag, Array(2), WindowsTime, TimeSpec, Other, U8]

  lemma StartsOfEach()
    ensures Start(ONE_OF_EACH, 0) == 0 && Start(ONE_OF_EACH, 1) == 1 && Start(ONE_OF_EACH, 2) == 3
    ensures Start(ONE_OF_EACH, 3) == 7
    ensures Start(ONE_OF_EACH, 4) == 15 && Start(ONE_OF_EACH, 5) == 23 && Start(ONE_OF_EACH, 6) == 29
    ensures Start(ONE_OF_EACH, 7) == 30 && Start(ONE_OF_EACH, 8) == 32 && Start(ONE_OF_EACH, 9) == 40
    ensures Start(ONE_OF_EACH, 10) == 52 && Start(ONE_OF_EACH, 11) == 52 && Start(ONE_OF_EACH, 12) == 53
  {
  }

  /** Field i of such a structure has this value. */
  predicate HasField(s: Slice, i: nat, v: Value)
    requires Sound(s) && i < 12
  {
    ReadField(ONE_OF_EACH[i], s, Start(ONE_OF_EACH, i)) == Returns(v)
  }

  lemma NumbersOfEach(s: Slice)
    requires Sound(s) && s.hi - s.lo >= 53
    ensures HasField(s, 0, NumberAt(s, 0, 1)) && HasField(s, 1, NumberAt(s, 1, 2))
    ensures HasField(s, 2, NumberAt(s, 3, 4)) && HasField(s, 3, NumberAt(s, 7, 8))
    ensures HasField(s, 4, SignedAt(s, 15)) && HasField(s, 5, NumberAt(s, 23, 6))
  {
    StartsOfEach();
    hide Start, Peek, Unsigned, Signed;
  }

  lemma OthersOfEach(s: Slice)
    requires Sound(s) && s.hi - s.lo >= 53
    ensures HasField(s, 6, Unset) && HasField(s, 7, Raw(Peek(s.store, s.lo + 30, 2)))
    ensures HasField(s, 8, NumberAt(s, 32, 8)) && HasField(s, 9, SignedAt(s, 40))
    ensures HasField(s, 10, Unset) && HasField(s, 11, NumberAt(s, 52, 1))
  {
    StartsOfEach();
    assert PeekArray(s, 30, 2) == Peek(s.store, s.lo + 30, 2);
    hide Start, Peek, PeekArray, Unsigned, Signed;
  }

  /** Every kind reads its own bytes, however many follow. */
  lemma EachIsRead(s: Slice)
    requires Sound(s) && s.hi - s.lo >= 53
    ensures var filled := Fill(ONE_OF_EACH, s, 12);
      && filled.Some? && filled.value.complete && filled.value.next == 53
      && filled.value.values ==
         [NumberAt(s, 0, 1), NumberAt(s, 1, 2), NumberAt(s, 3, 4), NumberAt(s, 7, 8), SignedAt(s, 15),
          NumberAt(s, 23, 6), Unset, Raw(Peek(s.store, s.lo + 30, 2)), NumberAt(s, 32, 8), SignedAt(s, 40),
          Unset, NumberAt(s, 52, 1)]
  {
    StartsOfEach();
    NumbersOfEach(s);
    OthersOfEach(s);
    hide Fill, Start, Peek, NumberAt, SignedAt, ReadField;
    LongEnoughFills(ONE_OF_EACH, s, 12);
    var values := Fill(ONE_OF_EACH, s, 12).value.values;
    forall i | 0 <= i < 12 ensures HasField(s, i, values[i]) {
      FilledValue(ONE_OF_EACH, s, 12, i);
    }
    assert HasField(s, 0, values[0]) && HasField(s, 1, values[1]) && HasField(s, 2, values[2]);
    assert HasField(s, 3, values[3]) && HasField(s, 4, values[4]) && HasField(s, 5, values[5]);
    assert HasField(s, 6, values[6]) && HasField(s, 7, values[7]) && HasField(s, 8, values[8]);
    assert HasField(s, 9, values[9]) && HasField(s, 10, values[10]) && HasField(s, 11, values[11]);
  }

  /** Object id, item type and offset of a key. */
  lemma KeyFields(s: Slice)
    requires Sound(s) && Fill(KEY, s, 3).Some?
    ensures s.lo + 17 <= |s.store|
    ensures Fill(KEY, s, 3).value.values == [NumberAt(s, 0, 8), NumberAt(s, 8, 1), NumberAt(s, 9, 8)]
  {
    KeyIsWhole(s);
    assert Start(KEY, 0) == 0 && Start(KEY, 1) == 8 && Start(KEY, 2) == 9;
    FilledValue(KEY, s, 3, 0);
    FilledValue(KEY, s, 3, 1);
    FilledValue(KEY, s, 3, 2);
  }

  lemma StartsOfChunk()
    ensures Start(CHUNK, 0) == 0 && Start(CHUNK, 1) == 8 && Start(CHUNK, 2) == 16 && Start(CHUNK, 3) == 24
    ensures Start(CHUNK, 4) == 32 && Start(CHUNK, 5) == 36 && Start(CHUNK, 6) == 40 && Start(CHUNK, 7) == 44
    ensures Start(CHUNK, 8) == 46 && Start(CHUNK, 9) == 48 && Start(CHUNK, 10) == 48
  {
    Layout();
  }

  /** Size, owner, stripe length and type; three sizes for I/O; the numbers of stripes and of
      sub-stripes; and the stripes themselves, which are filled later. */
  lemma ChunkFields(s: Slice)
    requires Sound(s) && Fill(CHUNK, s, 10).Some?
    ensures s.lo + 48 <= |s.store|
    ensures Fill(CHUNK, s, 10).value.values ==
      [NumberAt(s, 0, 8), NumberAt(s, 8, 8), NumberAt(s, 16, 8), NumberAt(s, 24, 8), NumberAt(s, 32, 4),
       NumberAt(s, 36, 4), NumberAt(s, 40, 4), NumberAt(s, 44, 2), NumberAt(s, 46, 2), Unset]
  {
    StartsOfChunk();
    PlainPanicsIff(CHUNK, s, 10);
    FilledValue(CHUNK, s, 10, 0);
    FilledValue(CHUNK, s, 10, 1);
    FilledValue(CHUNK, s, 10, 2);
    FilledValue(CHUNK, s, 10, 3);
    FilledValue(CHUNK, s, 10, 4);
    FilledValue(CHUNK, s, 10, 5);
    FilledValue(CHUNK, s, 10, 6);
    FilledValue(CHUNK, s, 10, 7);
    FilledValue(CHUNK, s, 10, 8);
    FilledValue(CHUNK, s, 10, 9);
    hide Fill, Start, Peek;
  }

  /** Device id, offset and device UUID of a stripe that lies in the slice. */
  lemma StripeFields(s: Slice)
    requires Sound(s) && s.hi - s.lo >= 32
    ensures Fill(STRIPE, s, 3).Some?
    ensures Fill(STRIPE, s, 3).value.values ==
      [NumberAt(s, 0, 8), NumberAt(s, 8, 8), Raw(Peek(s.store, s.lo + 16, 16))]
  {
    Layout();
    LongEnoughFills(STRIPE, s, 3);
    assert Start(STRIPE, 0) == 0 && Start(STRIPE, 1) == 8 && Start(STRIPE, 2) == 16;
    assert PeekArray(s, 16, 16) == Peek(s.store, s.lo + 16, 16);
    FilledValue(STRIPE, s, 3, 0);
    FilledValue(STRIPE, s, 3, 1);
    FilledValue(STRIPE, s, 3, 2);
  }

  /** The fields of a journal record up to those that its framing looks at. */
  const USN: seq<Kind> :=
    [U32, U16, U16, U64, U16, ParRef, U16, U64, WindowsTime, U32, U32, U32, U32, U16, U16, Other]

  /** The entry stands at byte 8, the name length at byte 58, and reading takes 62 bytes. */
  lemma UsnFields()
    ensures USN[3] == U64 && Start(USN, 3) == 8
    ensures USN[13] == U16 && Start(USN, 13) == 58
    ensures Start(USN, |USN|) == 62
  {
    assert Start(USN, 5) == 18 && Start(USN, 8) == 34 && Start(USN, 11) == 50;
    assert |USN| == 16 && Start(USN, 14) == 60 && Start(USN, 15) == 62;
  }
}

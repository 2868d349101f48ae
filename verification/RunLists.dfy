/** Run lists: the nibble-headed encoding, its decoder, and the linked list that the
    decoder builds in place. */
module RunLists {
  import opened Machine
  import opened LittleEndian
  import opened Sequences

  datatype Run = Run(offset: int, length: uint64)

  /** The bytes of the two fields of a run, as they stand in the buffer. */
  datatype Fields = Fields(length: seq<byte>, offset: seq<byte>)

  function Value(f: Fields): Run {
    Run(ReadEndianInt(f.offset), ToUint64(Unsigned(f.length)))
  }

  function Values(fields: seq<Fields>): (runs: seq<Run>)
    ensures |runs| == |fields|
    ensures forall i {:trigger runs[i]} :: 0 <= i < |runs| ==> runs[i] == Value(fields[i])
  {
    seq(|fields|, i requires 0 <= i < |fields| => Value(fields[i]))
  }

  function TotalLength(runs: seq<Run>): nat {
    if runs == [] then 0 else TotalLength(runs[..|runs| - 1]) + runs[|runs| - 1].length
  }

  lemma NothingYet()
    ensures Values([]) == [] && TotalLength([]) == 0
  {
  }

  lemma ValuesSnoc(done: seq<Fields>, f: Fields)
    ensures Values(done + [f]) == Values(done) + [Value(f)]
  {
  }

  lemma TotalLengthSnoc(runs: seq<Run>, run: Run, sum: uint64)
    requires sum == ToUint64(TotalLength(runs))
    ensures ToUint64(sum + run.length) == ToUint64(TotalLength(runs + [run]))
  {
    assert (runs + [run])[..|runs + [run]| - 1] == runs;
  }

  // ----- The framing as a function

  datatype Step = Stop | Overrun | Next(fields: Fields, end: nat)

  /** What the decoder finds at pos, in a slice of len bytes: it stops at the end and at a
      header without a length.  A Go slice expression may reach past the length of a slice
      up to its capacity, so a run may use bytes after len; past the last byte of the
      capacity the decoder panics. */
  function StepAt(bytes: seq<byte>, len: nat, pos: nat): (step: Step)
    requires len <= |bytes|
    ensures step.Next? ==> pos < step.end <= |bytes| && pos < len
  {
    if pos >= len || bytes[pos] % 16 == 0 then Stop
    else
      var lengthEnd := pos + 1 + bytes[pos] % 16;
      var end := lengthEnd + bytes[pos] / 16;
      if end > |bytes| then Overrun
      else Next(Fields(bytes[pos + 1..lengthEnd], bytes[lengthEnd..end]), end)
  }

  /** The runs from pos on, or None where the decoder panics. */
  function Decode(bytes: seq<byte>, len: nat, pos: nat): Option<seq<Fields>>
    requires len <= |bytes|
    decreases len - pos
  {
    match StepAt(bytes, len, pos)
    case Stop => Some([])
    case Overrun => None
    case Next(fields, end) => Prepend([fields], Decode(bytes, len, end))
  }

  function Prepend<T>(front: seq<T>, rest: Option<seq<T>>): Option<seq<T>> {
    if rest.Some? then Some(front + rest.value) else None
  }

  lemma PrependOne<T>(front: seq<T>, x: T, rest: Option<seq<T>>)
    ensures Prepend(front, Prepend([x], rest)) == Prepend(front + [x], rest)
  {
    if rest.Some? {
      assert front + ([x] + rest.value) == front + [x] + rest.value;
    }
  }

  /** Decoding has produced the first runs and stands at pos. */
  ghost predicate Reached(bytes: seq<byte>, len: nat, done: seq<Fields>, pos: nat)
    requires len <= |bytes|
  {
    Decode(bytes, len, 0) == Prepend(done, Decode(bytes, len, pos))
  }

  lemma ReachedStart(bytes: seq<byte>, len: nat)
    requires len <= |bytes|
    ensures Reached(bytes, len, [], 0)
  {
    if Decode(bytes, len, 0).Some? {
      assert [] + Decode(bytes, len, 0).value == Decode(bytes, len, 0).value;
    }
  }

  lemma ReachedStep(bytes: seq<byte>, len: nat, done: seq<Fields>, pos: nat)
    requires len <= |bytes| && Reached(bytes, len, done, pos)
    ensures match StepAt(bytes, len, pos)
      case Stop => Decode(bytes, len, 0) == Some(done)
      case Overrun => Decode(bytes, len, 0) == None
      case Next(fields, end) => Reached(bytes, len, done + [fields], end)
  {
    var step := StepAt(bytes, len, pos);
    if step.Stop? {
      assert done + [] == done;
    } else if step.Next? {
      PrependOne(done, step.fields, Decode(bytes, len, step.end));
    }
  }

  // ----- The decoder as it runs

  class RunList {
    var offset: int
    var length: uint64
    var next: RunList?

    constructor (run: Run)
      ensures offset == run.offset && length == run.length && next == null
    {
      offset, length, next := run.offset, run.length, null;
    }

    /** What Process has built: nothing yet, or a list that starts here. */
    ghost predicate Built(nodes: seq<RunList>, runs: seq<Run>)
      reads nodes
    {
      if runs == [] then nodes == [] else Spells(nodes, runs) && nodes[0] == this
    }

    /** Fills this node with the first run and links a new node for each further run.
        Returns the sum of the lengths, in 64 bits. */
    method Process(bytes: seq<byte>, len: nat) returns (total: Outcome<uint64>, ghost nodes: seq<RunList>)
      requires len <= |bytes|
      modifies this
      ensures Decode(bytes, len, 0).None? ==> total == Panics
      ensures Decode(bytes, len, 0).Some? ==>
        var runs := Values(Decode(bytes, len, 0).value);
        && total == Returns(ToUint64(TotalLength(runs)))
        && Built(nodes, runs)
        && (runs == [] ==> unchanged(this))
      ensures forall i :: 0 < i < |nodes| ==> fresh(nodes[i])
    {
      hide Reached, Decode, Value, TotalLength;
      NothingYet();
      var clusterPtr, sum: uint64, prev := 0, 0, this;
      ghost var done: seq<Fields> := [];
      nodes := [];
      ReachedStart(bytes, len);
      while clusterPtr < len
        invariant Reached(bytes, len, done, clusterPtr)
        invariant sum == ToUint64(TotalLength(Values(done)))
        invariant clusterPtr == 0 <==> done == []
        invariant Built(nodes, Values(done))
        invariant if done == [] then prev == this && unchanged(this) else prev == nodes[|nodes| - 1]
        invariant forall i :: 0 < i < |nodes| ==> fresh(nodes[i])
        invariant clusterPtr <= |bytes|
        decreases |bytes| - clusterPtr
      {
        ReachedStep(bytes, len, done, clusterPtr);
        var step := ReadStep(bytes, len, clusterPtr);
        if step.Stop? {
          break;
        }
        if step.Overrun? {
          total := Panics;
          return;
        }
        var run := ReadRun(step.fields);
        prev, nodes := Place(run, clusterPtr == 0, prev, nodes, Values(done));
        ValuesSnoc(done, step.fields);
        TotalLengthSnoc(Values(done), run, sum);
        sum := ToUint64(sum + run.length);
        done := done + [step.fields];
        clusterPtr := step.end;
      }
      ReachedStep(bytes, len, done, clusterPtr);
      total := Returns(sum);
    }

    /** The first run overwrites this node; any other run becomes a new last node. */
    method Place(run: Run, first: bool, prev: RunList, ghost nodes: seq<RunList>, ghost runs: seq<Run>)
      returns (last: RunList, ghost longer: seq<RunList>)
      requires Built(nodes, runs) && (first <==> runs == [])
      requires if first then prev == this else prev == nodes[|nodes| - 1]
      modifies this, prev
      ensures Built(longer, runs + [run]) && last == longer[|longer| - 1]
      ensures first ==> longer == [this]
      ensures !first ==> longer == nodes + [last] && fresh(last)
    {
      if first {
        offset, length, next := run.offset, run.length, null;
        last := this;
        longer := [this];
      } else {
        last := new RunList(run);
        prev.next := last;
        longer := nodes + [last];
      }
    }
  }

  /** Reads the header at pos and cuts out the two fields that follow it. */
  method ReadStep(bytes: seq<byte>, len: nat, pos: nat) returns (step: Step)
    requires pos < len <= |bytes|
    ensures step == StepAt(bytes, len, pos)
  {
    var offsetBytes, lengthBytes := bytes[pos] / 16, bytes[pos] % 16;
    if lengthBytes == 0 {
      return Stop;
    }
    var lengthEnd := pos + 1 + lengthBytes;
    if lengthEnd > |bytes| || lengthEnd + offsetBytes > |bytes| {
      return Overrun;
    }
    step := Next(Fields(bytes[pos + 1..lengthEnd], bytes[lengthEnd..lengthEnd + offsetBytes]), lengthEnd + offsetBytes);
  }

  method ReadRun(f: Fields) returns (run: Run)
    ensures run == Value(f)
  {
    var length := ReadEndianUInt(f.length);
    run := Run(ReadEndianInt(f.offset), length);
  }

  /** The nodes form a list, in order and without repetition, that holds these runs. */
  ghost predicate Spells(nodes: seq<RunList>, runs: seq<Run>)
    reads nodes
  {
    && |nodes| == |runs| > 0
    && (forall i, j :: 0 <= i < j < |nodes| ==> nodes[i] != nodes[j])
    && (forall i :: 0 <= i < |nodes| ==> nodes[i].offset == runs[i].offset && nodes[i].length == runs[i].length)
    && (forall i {:trigger nodes[i].next} :: 0 <= i < |nodes| ==>
          nodes[i].next == if i + 1 < |nodes| then nodes[i + 1] else null)
  }

  // ----- The encoder, and the round trip

  predicate Encodable(f: Fields) {
    1 <= |f.length| <= 15 && |f.offset| <= 15
  }

  function EncodeOne(f: Fields): (bytes: seq<byte>)
    requires Encodable(f)
  {
    [16 * |f.offset| + |f.length|] + (f.length + f.offset)
  }

  predicate AllEncodable(fields: seq<Fields>) {
    forall i :: 0 <= i < |fields| ==> Encodable(fields[i])
  }

  function Encode(fields: seq<Fields>): seq<byte>
    requires AllEncodable(fields)
  {
    if fields == [] then [] else EncodeOne(fields[0]) + Encode(fields[1..])
  }

  /** Where decoding stops: at the end of the slice, or at a header without a length. */
  predicate Stops(bytes: seq<byte>, len: nat, pos: nat)
    requires len <= |bytes|
  {
    pos >= len || bytes[pos] % 16 == 0
  }

  /** Every run starts inside the slice.  The last one may reach past its length. */
  ghost predicate StartInside(fields: seq<Fields>, pos: nat, len: nat)
    requires AllEncodable(fields)
    decreases |fields|
  {
    fields != [] ==> pos < len && StartInside(fields[1..], pos + |EncodeOne(fields[0])|, len)
  }

  /** The bytes from pos on are these runs, encoded, and then a stop. */
  ghost predicate Reads(bytes: seq<byte>, len: nat, pos: nat, fields: seq<Fields>)
    requires len <= |bytes|
  {
    && AllEncodable(fields)
    && StartInside(fields, pos, len)
    && StandsAt(bytes, pos, Encode(fields))
    && Stops(bytes, len, pos + |Encode(fields)|)
  }

  /** Decoding undoes encoding, wherever the runs lie in the buffer and whatever follows
      the stop. */
  lemma {:induction false} FramingRoundTrip(bytes: seq<byte>, len: nat, pos: nat, fields: seq<Fields>)
    requires len <= |bytes| && Reads(bytes, len, pos, fields)
    ensures Decode(bytes, len, pos) == Some(fields)
    decreases |fields|
  {
    if fields != [] {
      var one, rest := EncodeOne(fields[0]), Encode(fields[1..]);
      StandsAtParts(bytes, pos, one, rest);
      StepOne(bytes, len, pos, fields[0]);
      FramingRoundTrip(bytes, len, pos + |one|, fields[1..]);
      assert [fields[0]] + fields[1..] == fields;
    }
  }

  lemma StepOne(bytes: seq<byte>, len: nat, pos: nat, f: Fields)
    requires Encodable(f) && pos < len <= |bytes|
    requires StandsAt(bytes, pos, EncodeOne(f))
    ensures StepAt(bytes, len, pos) == Next(f, pos + |EncodeOne(f)|)
  {
    var header := 16 * |f.offset| + |f.length|;
    assert EncodeOne(f)[0] == header;
    StandsAtParts(bytes, pos, [header], f.length + f.offset);
    StandsAtParts(bytes, pos + 1, f.length, f.offset);
  }

  /** What one step cuts out is there in the buffer: the header and the two fields, encoded. */
  lemma StepIsEncoded(bytes: seq<byte>, len: nat, pos: nat)
    requires len <= |bytes| && StepAt(bytes, len, pos).Next?
    ensures var step := StepAt(bytes, len, pos);
      && Encodable(step.fields)
      && StandsAt(bytes, pos, EncodeOne(step.fields))
      && step.end == pos + |EncodeOne(step.fields)|
  {
    var f := StepAt(bytes, len, pos).fields;
    assert |f.length| == bytes[pos] % 16 && |f.offset| == bytes[pos] / 16;
    assert EncodeOne(f)[0] == bytes[pos];
  }

  /** Whatever is decoded stands in the buffer, encoded, up to a stop. */
  lemma {:induction false} DecodedIsEncoded(bytes: seq<byte>, len: nat, pos: nat)
    requires len <= |bytes| && pos <= |bytes| && Decode(bytes, len, pos).Some?
    ensures Reads(bytes, len, pos, Decode(bytes, len, pos).value)
    decreases len - pos
  {
    var step := StepAt(bytes, len, pos);
    if step.Next? {
      StepIsEncoded(bytes, len, pos);
      DecodedIsEncoded(bytes, len, step.end);
      var fields, rest := Decode(bytes, len, pos).value, Decode(bytes, len, step.end).value;
      assert fields[0] == step.fields && fields[1..] == rest;
      StandsAtJoined(bytes, pos, EncodeOne(step.fields), Encode(rest));
    }
  }

  /** Decoding does not panic if and only if the bytes are runs, encoded, and then a stop; and
      these runs are what it decodes. */
  lemma DecodesIffEncoded(bytes: seq<byte>, len: nat, pos: nat)
    requires len <= |bytes| && pos <= |bytes|
    ensures Decode(bytes, len, pos).Some? <==> exists fields :: Reads(bytes, len, pos, fields)
    ensures forall fields :: Reads(bytes, len, pos, fields) ==> Decode(bytes, len, pos) == Some(fields)
  {
    forall fields | Reads(bytes, len, pos, fields) ensures Decode(bytes, len, pos) == Some(fields) {
      FramingRoundTrip(bytes, len, pos, fields);
    }
    if Decode(bytes, len, pos).Some? {
      DecodedIsEncoded(bytes, len, pos);
    }
  }

  // ----- The panic, by the headers alone

  /** The size of a run that starts with this header. */
  function RunSize(header: byte): nat {
    1 + header % 16 + header / 16
  }

  /** The place of the last header that is looked at. */
  function LastHeader(bytes: seq<byte>, len: nat, pos: nat): (last: nat)
    requires len <= |bytes|
    ensures last >= pos
    decreases len - pos
  {
    if Stops(bytes, len, pos) || pos + RunSize(bytes[pos]) > |bytes| then pos
    else LastHeader(bytes, len, pos + RunSize(bytes[pos]))
  }

  /** Decoding panics if and only if the last header is no stop and its run reaches behind
      the last byte of the capacity. */
  lemma {:induction false} DecodePanicsIff(bytes: seq<byte>, len: nat, pos: nat)
    requires len <= |bytes|
    ensures var last := LastHeader(bytes, len, pos);
      Decode(bytes, len, pos).None?
      <==> !Stops(bytes, len, last) && last + RunSize(bytes[last]) > |bytes|
    decreases len - pos
  {
    if StepAt(bytes, len, pos).Next? {
      DecodePanicsIff(bytes, len, StepAt(bytes, len, pos).end);
    }
  }

  /** It cannot panic when 30 bytes follow the slice in its capacity. */
  lemma {:induction false} EnoughCapacity(bytes: seq<byte>, len: nat, pos: nat)
    requires len + 30 <= |bytes|
    ensures Decode(bytes, len, pos).Some?
    decreases len - pos
  {
    if StepAt(bytes, len, pos).Next? {
      EnoughCapacity(bytes, len, StepAt(bytes, len, pos).end);
    }
  }

  /** The record parser hands over the bytes of an attribute from runOff up to attrLen, if the
      sum of both, without a wrap in 16 bits, still ends inside the record.  This leaves the
      room that is needed if the runs start at least 29 bytes into the attribute. */
  lemma GuardLeavesRoom(bytes: seq<byte>, readPtr: nat, runOff: nat, attrLen: nat, recordLen: nat)
    requires 29 <= runOff <= attrLen && readPtr + runOff + attrLen < recordLen
    requires recordLen - (readPtr + runOff) <= |bytes|
    ensures Decode(bytes, attrLen - runOff, 0).Some?
  {
    EnoughCapacity(bytes, attrLen - runOff, 0);
  }

  // Below that it can panic.  Take an attribute of 103 bytes at place 900 of the last record,
  // whose runs start 20 bytes into it: 83 bytes with a capacity of 104.

  /** 41 runs of two bytes, and then a header that asks for 30 bytes more. */
  predicate Overrunning(bytes: seq<byte>) {
    && |bytes| == 104
    && (forall k :: 0 <= k < 82 && k % 2 == 0 ==> bytes[k] == 0x01)
    && bytes[82] == 0xff
  }

  lemma {:induction false} OverrunningHeader(bytes: seq<byte>, pos: nat)
    requires Overrunning(bytes) && pos <= 82 && pos % 2 == 0
    ensures Decode(bytes, 83, pos) == None
    decreases 82 - pos
  {
    if pos < 82 {
      assert StepAt(bytes, 83, pos).Next? && StepAt(bytes, 83, pos).end == pos + 2;
      OverrunningHeader(bytes, pos + 2);
    }
  }

  /** A run with the widths of its two fields. */
  datatype Sized = Sized(run: Run, lengthWidth: nat, offsetWidth: nat)

  /** The widths suffice.  An offset takes at most four bytes, two's complement. */
  predicate Fits(s: Sized) {
    && 1 <= s.lengthWidth <= 8
    && s.offsetWidth <= 4
    && s.run.length < Pow256(s.lengthWidth)
    && if s.offsetWidth == 0 then s.run.offset == 0
       else var half := 128 * Pow256(s.offsetWidth - 1); -half <= s.run.offset < half
  }

  function ToFields(s: Sized): (f: Fields)
    requires Fits(s)
    ensures Encodable(f)
  {
    Fields(Bytes(s.run.length, s.lengthWidth),
           Bytes(if s.run.offset < 0 then s.run.offset + Pow256(s.offsetWidth) else s.run.offset, s.offsetWidth))
  }

  /** The fields keep the run, whichever sufficient widths the encoder chose. */
  lemma FieldsRoundTrip(s: Sized)
    requires Fits(s)
    ensures Value(ToFields(s)) == s.run
  {
    hide Unsigned, Bytes, ReadEndianInt;
    UnsignedBytes(s.run.length, s.lengthWidth);
    SmallWidth(s.lengthWidth);
    OffsetRoundTrip(s);
    ShortInt(ToFields(s).offset);
  }

  lemma {:induction false} SmallWidth(width: nat)
    requires width <= 8
    ensures Pow256(width) <= TWO_TO_64
  {
    SmallPowers();
    PowSum(width, 8 - width);
    assert Pow256(width) * Pow256(8 - width) >= Pow256(width) * 1;
  }

  lemma OffsetRoundTrip(s: Sized)
    requires Fits(s)
    ensures Signed(ToFields(s).offset) == s.run.offset
  {
    assert Signed([]) == 0;
    hide Unsigned, Bytes;
    var bs := ToFields(s).offset;
    if s.offsetWidth > 0 {
      LastByte(bs);
      UnsignedBytes(if s.run.offset < 0 then s.run.offset + Pow256(s.offsetWidth) else s.run.offset, s.offsetWidth);
    } else {
      assert bs == [];
    }
  }

  function AllFields(runs: seq<Sized>): (fields: seq<Fields>)
    requires forall i :: 0 <= i < |runs| ==> Fits(runs[i])
    ensures |fields| == |runs|
    ensures forall i {:trigger fields[i]} :: 0 <= i < |fields| ==>
      Encodable(fields[i]) && fields[i] == ToFields(runs[i])
  {
    seq(|runs|, i requires 0 <= i < |runs| => ToFields(runs[i]))
  }

  lemma {:induction false} InsideWhenShort(fields: seq<Fields>, pos: nat, len: nat)
    requires AllEncodable(fields) && pos + |Encode(fields)| <= len
    ensures StartInside(fields, pos, len)
    decreases |fields|
  {
    if fields != [] {
      InsideWhenShort(fields[1..], pos + |EncodeOne(fields[0])|, len);
    }
  }

  /** Encode any runs, end with a header without a length and any further bytes, and decode:
      the result is the runs, in order. */
  lemma RunListRoundTrip(runs: seq<Sized>, header: byte, after: seq<byte>, len: nat)
    requires forall i :: 0 <= i < |runs| ==> Fits(runs[i])
    requires header % 16 == 0
    requires |Encode(AllFields(runs))| <= len <= |Encode(AllFields(runs)) + [header] + after|
    ensures var decoded := Decode(Encode(AllFields(runs)) + [header] + after, len, 0);
      && decoded.Some?
      && |decoded.value| == |runs|
      && forall i :: 0 <= i < |runs| ==> Values(decoded.value)[i] == runs[i].run
  {
    var encoded := Encode(AllFields(runs));
    var bytes := encoded + [header] + after;
    assert bytes[|encoded|] == header;
    InsideWhenShort(AllFields(runs), 0, len);
    FramingRoundTrip(bytes, len, 0, AllFields(runs));
    forall i | 0 <= i < |runs| ensures Value(AllFields(runs)[i]) == runs[i].run {
      FieldsRoundTrip(runs[i]);
    }
  }

  /** One byte of length and two of offset: 24 clusters, 22068 from the start. */
  lemma KnownRun()
    ensures var decoded := Decode([0x21, 0x18, 0x34, 0x56, 0x00], 5, 0);
      decoded.Some? && Values(decoded.value) == [Run(0x5634, 0x18)]
  {
    SmallPowers();
    var run := Sized(Run(0x5634, 0x18), 1, 2);
    var f := AllFields([run])[0];
    assert f.length == [0x18] && f.offset == [0x34, 0x56];
    assert AllFields([run]) == [f] && Encode([f][1..]) == [];
    assert Encode([f]) + [0x00] + [] == [0x21, 0x18, 0x34, 0x56, 0x00];
    RunListRoundTrip([run], 0x00, [], 5);
    assert [run][0].run == Run(0x5634, 0x18);
  }

  /** Every run with a 32-bit offset has sufficient widths. */
  lemma EveryRunFits(run: Run)
    requires -0x8000_0000 <= run.offset < 0x8000_0000
    ensures Fits(Sized(run, 8, 4))
  {
    SmallPowers();
  }
}

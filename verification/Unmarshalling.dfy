/** Filling the fields of a structure from bytes, one field after the other, by the kinds of
    the fields alone. */
module Unmarshalling {
  import opened Machine
  import opened LittleEndian
  import opened Sequences

  /** The kinds of fields.  The last one stands for strings, pointers, slices and the
      integer types that are passed over. */
  datatype Kind = U8 | U16 | U32 | U64 | I64 | ParRef | Flag | Array(size: Positive) | WindowsTime | TimeSpec | Other

  type Positive = n: nat | n > 0 witness 1

  datatype Value = Number(n: int) | Raw(bytes: seq<byte>) | Unset

  /** A slice: the bytes from lo up to hi, of a store that goes on behind it. */
  datatype Slice = Slice(store: seq<byte>, lo: nat, hi: nat)

  predicate Sound(s: Slice) {
    s.lo <= s.hi <= |s.store|
  }

  /** How far a field advances the cursor. */
  function Width(kind: Kind): nat {
    match kind
    case U8 => 1
    case U16 => 2
    case U32 => 4
    case U64 => 8
    case I64 => 8
    case ParRef => 6
    case Flag => 1
    case Array(size) => size
    case WindowsTime => 8
    case TimeSpec => 12
    case Other => 0
  }

  /** Where field n starts. */
  function Start(fields: seq<Kind>, n: nat): nat
    requires n <= |fields|
  {
    if n == 0 then 0 else Start(fields, n - 1) + Width(fields[n - 1])
  }

  function Peek(store: seq<byte>, at: nat, width: nat): (bs: seq<byte>)
    requires at + width <= |store|
    ensures |bs| == width
    ensures forall i :: 0 <= i < width ==> bs[i] == store[at + i]
  {
    seq(width, i requires 0 <= i < width => store[at + i])
  }

  /** The bytes of an array; those behind the end of the slice stay zero. */
  function PeekArray(s: Slice, idx: nat, size: nat): (bs: seq<byte>)
    requires Sound(s)
    ensures |bs| == size
  {
    seq(size, i requires 0 <= i < size => if s.lo + idx + i < s.hi then s.store[s.lo + idx + i] else 0)
  }

  /** One field.  Numbers are read through the end of the slice as long as its store goes on.
      An array looks at the first byte of the slice, whatever the cursor, and must start
      within the slice. */
  function ReadField(kind: Kind, s: Slice, idx: nat): Outcome<Value>
    requires Sound(s)
  {
    if kind.Other? || kind.Flag? then Returns(Unset)
    else if kind.Array? then
      if s.hi == s.lo then Panics
      else if idx > s.hi - s.lo then Fails
      else Returns(Raw(PeekArray(s, idx, kind.size)))
    else if s.lo + idx + Width(kind) > |s.store| then Panics
    else if kind.I64? then Returns(Number(Signed(Peek(s.store, s.lo + idx, 8))))
    else if kind.TimeSpec? then Returns(Number(Signed(Peek(s.store, s.lo + idx, 8))))
    else Returns(Number(Unsigned(Peek(s.store, s.lo + idx, Width(kind)))))
  }

  /** The fields that were filled and the cursor behind them.  An error ends the filling,
      but callers go on with the cursor. */
  datatype Filled = Filled(values: seq<Value>, next: nat, complete: bool)

  /** The structure after the first n fields, or None where the source panics. */
  function Fill(fields: seq<Kind>, s: Slice, n: nat): (filled: Option<Filled>)
    requires Sound(s) && n <= |fields|
    ensures filled.Some? ==> |filled.value.values| <= n
    ensures filled.Some? && filled.value.complete ==>
      |filled.value.values| == n && filled.value.next == Start(fields, n)
  {
    if n == 0 then Some(Filled([], 0, true))
    else
      var before := Fill(fields, s, n - 1);
      if before.None? || !before.value.complete then before
      else
        var (values, idx) := (before.value.values, before.value.next);
        match ReadField(fields[n - 1], s, idx)
        case Panics => None
        case Fails => Some(Filled(values, idx, false))
        case Returns(value) => Some(Filled(values + [value], idx + Width(fields[n - 1]), true))
  }

  method Unmarshal(fields: seq<Kind>, s: Slice) returns (filled: Option<Filled>)
    requires Sound(s)
    ensures filled == Fill(fields, s, |fields|)
  {
    hide ReadField, Width;
    var values: seq<Value>, idx: nat := [], 0;
    for i := 0 to |fields|
      invariant Fill(fields, s, i) == Some(Filled(values, idx, true))
    {
      FillStops(fields, s, i + 1);
      var value := ReadField(fields[i], s, idx);
      if value.Panics? {
        return None;
      }
      if value.Fails? {
        return Some(Filled(values, idx, false));
      }
      values, idx := values + [value.value], idx + Width(fields[i]);
    }
    filled := Some(Filled(values, idx, true));
  }

  /** Once filling has stopped, the remaining fields change nothing. */
  lemma {:induction false} FillStops(fields: seq<Kind>, s: Slice, n: nat)
    requires Sound(s) && n <= |fields|
    ensures Fill(fields, s, n).None? || !Fill(fields, s, n).value.complete ==>
      Fill(fields, s, |fields|) == Fill(fields, s, n)
    decreases |fields| - n
  {
    if n < |fields| {
      FillStops(fields, s, n + 1);
    }
  }

  // ----- The cursor does not depend on the contents

  /** A slice that is long enough fills all fields, and the cursor is the sum of their widths. */
  lemma {:induction false} LongEnoughFills(fields: seq<Kind>, s: Slice, n: nat)
    requires Sound(s) && n <= |fields| && Start(fields, n) <= s.hi - s.lo
    ensures Fill(fields, s, n).Some? && Fill(fields, s, n).value.complete
    ensures Fill(fields, s, n).value.next == Start(fields, n)
  {
    if n > 0 {
      LongEnoughFills(fields, s, n - 1);
    }
  }

  // ----- When it panics

  /** Field i panics if it is reached: a number behind the end of the store, or an array in an
      empty slice. */
  predicate PanicsAt(fields: seq<Kind>, s: Slice, i: nat)
    requires i < |fields|
  {
    match fields[i]
    case Other => false
    case Flag => false
    case Array(_) => s.hi == s.lo
    case _ => s.lo + Start(fields, i) + Width(fields[i]) > |s.store|
  }

  /** Field i ends the filling with an error if it is reached. */
  predicate StopsAt(fields: seq<Kind>, s: Slice, i: nat)
    requires i < |fields|
  {
    fields[i].Array? && s.lo != s.hi && s.lo + Start(fields, i) > s.hi
  }

  /** Filling panics if and only if some field does and no field before it ends the filling.
      The contents do not matter. */
  lemma {:induction false} FillPanicsIff(fields: seq<Kind>, s: Slice, n: nat)
    requires Sound(s) && n <= |fields|
    ensures Fill(fields, s, n).None?
       <==> exists i :: 0 <= i < n && PanicsAt(fields, s, i) && NoneStops(fields, s, i)
    ensures Fill(fields, s, n).Some? ==> (Fill(fields, s, n).value.complete <==> NoneStops(fields, s, n))
  {
    hide Start;
    if n > 0 {
      FillPanicsIff(fields, s, n - 1);
      assert NoneStops(fields, s, n) <==> NoneStops(fields, s, n - 1) && !StopsAt(fields, s, n - 1);
    }
  }

  predicate NoneStops(fields: seq<Kind>, s: Slice, n: nat)
    requires n <= |fields|
  {
    forall k :: 0 <= k < n ==> !StopsAt(fields, s, k)
  }

  /** A field that reads a number from the store, or none at all. */
  predicate Plain(kind: Kind) {
    !kind.Array? && !kind.Flag?
  }

  /** Without arrays and flags, filling panics if and only if the numbers reach behind the end
      of the store. */
  lemma {:induction false} PlainPanicsIff(fields: seq<Kind>, s: Slice, n: nat)
    requires Sound(s) && n <= |fields| && forall i :: 0 <= i < n ==> Plain(fields[i])
    ensures Fill(fields, s, n).None? <==> s.lo + Start(fields, n) > |s.store|
    ensures Fill(fields, s, n).Some? ==> Fill(fields, s, n).value.complete
  {
    if n > 0 {
      PlainPanicsIff(fields, s, n - 1);
    }
  }

  /** Each value is what reading its field gives. */
  lemma {:induction false} FilledValue(fields: seq<Kind>, s: Slice, n: nat, i: nat)
    requires Sound(s) && i < n <= |fields| && Fill(fields, s, n).Some? && Fill(fields, s, n).value.complete
    ensures ReadField(fields[i], s, Start(fields, i)) == Returns(Fill(fields, s, n).value.values[i])
  {
    if i < n - 1 {
      FilledValue(fields, s, n - 1, i);
    }
  }

  // ----- The encoder, and the round trip

  /** What a field of this kind can hold. */
  predicate Holds(kind: Kind, v: Value) {
    match kind
    case I64 => v.Number? && -0x8000_0000_0000_0000 <= v.n < 0x8000_0000_0000_0000
    case TimeSpec => v.Number? && -0x8000_0000_0000_0000 <= v.n < 0x8000_0000_0000_0000
    case Array(size) => v.Raw? && |v.bytes| == size
    case Flag => v == Unset
    case Other => v == Unset
    case _ => v.Number? && 0 <= v.n < Pow256(Width(kind))
  }

  function EncodeSigned(n: int): (bs: seq<byte>)
    requires -0x8000_0000_0000_0000 <= n < 0x8000_0000_0000_0000
    ensures |bs| == 8
  {
    Bytes(ToUint64(n), 8)
  }

  function EncodeField(kind: Kind, v: Value): (bs: seq<byte>)
    requires Holds(kind, v)
    ensures |bs| == Width(kind)
  {
    match kind
    case I64 => EncodeSigned(v.n)
    case TimeSpec => EncodeSigned(v.n) + [0, 0, 0, 0]
    case Array(size) => v.bytes
    case Flag => [0]
    case Other => []
    case _ => Bytes(v.n, Width(kind))
  }

  predicate HoldAll(fields: seq<Kind>, values: seq<Value>) {
    && |fields| == |values|
    && forall i {:trigger fields[i]} {:trigger values[i]} :: 0 <= i < |fields| ==> Holds(fields[i], values[i])
  }

  function EncodeFields(fields: seq<Kind>, values: seq<Value>, n: nat): (bs: seq<byte>)
    requires HoldAll(fields, values) && n <= |fields|
    ensures |bs| == Start(fields, n)
  {
    if n == 0 then [] else EncodeFields(fields, values, n - 1) + EncodeField(fields[n - 1], values[n - 1])
  }

  lemma SignedRoundTrip(n: int)
    requires -0x8000_0000_0000_0000 <= n < 0x8000_0000_0000_0000
    ensures Signed(EncodeSigned(n)) == n
  {
    SmallPowers();
    assert Pow256(7) == 0x100_0000_0000_0000 by { PowSum(4, 3); }
    LastByte(EncodeSigned(n));
    UnsignedBytes(ToUint64(n), 8);
  }

  lemma FieldRoundTrip(kind: Kind, v: Value, s: Slice, idx: nat)
    requires Holds(kind, v) && Sound(s)
    requires s.lo + idx + Width(kind) <= s.hi
    requires StandsAt(s.store, s.lo + idx, EncodeField(kind, v))
    ensures ReadField(kind, s, idx) == Returns(v)
  {
    hide Unsigned, Signed, Bytes, EncodeSigned;
    var bs := EncodeField(kind, v);
    match kind
    case I64 =>
      SignedRoundTrip(v.n);
      assert Peek(s.store, s.lo + idx, 8) == bs;
    case TimeSpec =>
      SignedRoundTrip(v.n);
      StandsAtParts(s.store, s.lo + idx, EncodeSigned(v.n), [0, 0, 0, 0]);
      assert Peek(s.store, s.lo + idx, 8) == EncodeSigned(v.n);
    case Array(size) =>
      assert PeekArray(s, idx, size) == bs;
    case Flag =>
    case Other =>
    case _ =>
      UnsignedBytes(v.n, Width(kind));
      assert Peek(s.store, s.lo + idx, Width(kind)) == bs;
  }

  lemma {:induction false} FirstFieldsInvert(fields: seq<Kind>, values: seq<Value>, s: Slice, n: nat)
    requires HoldAll(fields, values) && Sound(s) && n <= |fields|
    requires s.lo + Start(fields, n) <= s.hi
    requires StandsAt(s.store, s.lo, EncodeFields(fields, values, n))
    ensures Fill(fields, s, n) == Some(Filled(values[..n], Start(fields, n), true))
  {
    hide EncodeField, ReadField, Width, Holds;
    if n > 0 {
      var field := EncodeField(fields[n - 1], values[n - 1]);
      StandsAtParts(s.store, s.lo, EncodeFields(fields, values, n - 1), field);
      FirstFieldsInvert(fields, values, s, n - 1);
      FieldRoundTrip(fields[n - 1], values[n - 1], s, Start(fields, n - 1));
      assert values[..n] == values[..n - 1] + [values[n - 1]];
    }
  }

  /** Filling undoes encoding, for any list of kinds, wherever the bytes lie and whatever
      follows them. */
  lemma UnmarshalInverts(fields: seq<Kind>, values: seq<Value>, s: Slice)
    requires HoldAll(fields, values) && Sound(s)
    requires s.lo + Start(fields, |fields|) <= s.hi
    requires StandsAt(s.store, s.lo, EncodeFields(fields, values, |fields|))
    ensures Fill(fields, s, |fields|) == Some(Filled(values, Start(fields, |fields|), true))
  {
    FirstFieldsInvert(fields, values, s, |fields|);
    assert values[..|values|] == values;
  }
}

/** The bootstrap array of a BTRFS superblock: keys and chunk items one after the other, each
    chunk item with as many stripes as it says. */
module SystemChunks {
  import opened Machine
  import opened LittleEndian
  import opened Sequences
  import opened Unmarshalling

  const KEY: seq<Kind> := [U64, U8, U64]
  const CHUNK: seq<Kind> := [U64, U64, U64, U64, U32, U32, U32, U16, U16, Other]
  const STRIPE: seq<Kind> := [U64, U64, Array(16)]

  /** The field that holds the number of stripes. */
  const NOF_STRIPES: nat := 7

  datatype Pair = Pair(key: seq<Value>, chunk: seq<Value>, stripes: seq<seq<Value>>)

  /** The rest of a slice, or None where it would start behind its end. */
  function From(s: Slice, k: nat): (rest: Option<Slice>)
    requires Sound(s)
    ensures rest.Some? ==> Sound(rest.value)
  {
    if k > s.hi - s.lo then None else Some(Slice(s.store, s.lo + k, s.hi))
  }

  lemma Layout()
    ensures Start(KEY, 3) == 17 && Start(CHUNK, 10) == 48 && Start(STRIPE, 3) == 32
    ensures Start(CHUNK, NOF_STRIPES) == 44
  {
    assert Start(KEY, 1) == 8 && Start(KEY, 2) == 9;
    assert Start(CHUNK, 1) == 8 && Start(CHUNK, 2) == 16 && Start(CHUNK, 3) == 24;
    assert Start(CHUNK, 4) == 32 && Start(CHUNK, 5) == 36 && Start(CHUNK, 6) == 40;
    assert Start(CHUNK, 8) == 46 && Start(CHUNK, 9) == 48;
    assert Start(STRIPE, 1) == 8 && Start(STRIPE, 2) == 16;
  }

  // ----- The parsers

  datatype Stripes = Stripes(list: seq<seq<Value>>, next: nat)

  /** The first n stripes, the first of which starts at cursor `start`. */
  function StripesAt(s: Slice, start: nat, n: nat): Option<Stripes>
    requires Sound(s)
  {
    if n == 0 then Some(Stripes([], start))
    else
      var before := StripesAt(s, start, n - 1);
      if before.None? then None
      else
        var rest := From(s, before.value.next);
        if rest.None? then None
        else
          var filled := Fill(STRIPE, rest.value, 3);
          if filled.None? then None
          else Some(Stripes(before.value.list + [filled.value.values], before.value.next + filled.value.next))
  }

  /** How many stripes a chunk item announces. */
  function NofStripes(chunk: seq<Value>): nat {
    if |chunk| > NOF_STRIPES && chunk[NOF_STRIPES].Number? && chunk[NOF_STRIPES].n > 0 then chunk[NOF_STRIPES].n else 0
  }

  datatype Item = Item(chunk: seq<Value>, stripes: seq<seq<Value>>, next: nat)

  function ChunkItemAt(s: Slice): Option<Item>
    requires Sound(s)
  {
    var filled := Fill(CHUNK, s, 10);
    if filled.None? then None
    else
      var stripes := StripesAt(s, filled.value.next, NofStripes(filled.value.values));
      if stripes.None? then None
      else Some(Item(filled.value.values, stripes.value.list, stripes.value.next))
  }

  method ParseChunkItem(s: Slice) returns (item: Option<Item>)
    requires Sound(s)
    ensures item == ChunkItemAt(s)
  {
    hide Fill;
    var filled := Unmarshal(CHUNK, s);
    if filled.None? {
      return None;
    }
    var stripes, offset: nat := [], filled.value.next;
    var count := NofStripes(filled.value.values);
    for idx := 0 to count
      invariant StripesAt(s, filled.value.next, idx) == Some(Stripes(stripes, offset))
    {
      StripesStop(s, filled.value.next, idx + 1, count);
      var rest := From(s, offset);
      if rest.None? {
        return None;
      }
      var stripe := Unmarshal(STRIPE, rest.value);
      if stripe.None? {
        return None;
      }
      stripes, offset := stripes + [stripe.value.values], offset + stripe.value.next;
    }
    item := Some(Item(filled.value.values, stripes, offset));
  }

  lemma {:induction false} StripesStop(s: Slice, start: nat, m: nat, n: nat)
    requires Sound(s) && m <= n
    ensures StripesAt(s, start, m).None? ==> StripesAt(s, start, n).None?
  {
    if m < n {
      StripesStop(s, start, m, n - 1);
    }
  }

  /** A key is filled whole or not at all, so that the cursor always moves. */
  lemma KeyIsWhole(s: Slice)
    requires Sound(s)
    ensures Fill(KEY, s, 3).Some? ==> Fill(KEY, s, 3).value.complete && Fill(KEY, s, 3).value.next == 17
    ensures Fill(KEY, s, 3).None? <==> s.lo + 17 > |s.store|
  {
    Layout();
    PlainPanicsIff(KEY, s, 3);
  }

  /** One key and its chunk item, and the cursor behind them. */
  function PairAt(s: Slice, cur: nat): (found: Option<(Pair, nat)>)
    requires Sound(s)
    ensures found.Some? ==> found.value.1 >= cur + 17
  {
    var keyData := From(s, cur);
    if keyData.None? then None
    else
      KeyIsWhole(keyData.value);
      var key := Fill(KEY, keyData.value, 3);
      if key.None? then None
      else
        var itemData := From(s, cur + key.value.next);
        if itemData.None? then None
        else
          var item := ChunkItemAt(itemData.value);
          if item.None? then None
          else Some((Pair(key.value.values, item.value.chunk, item.value.stripes),
                     cur + key.value.next + item.value.next))
  }

  /** All pairs from a cursor on, or None where the source panics. */
  function PairsFrom(s: Slice, cur: nat): Option<seq<Pair>>
    requires Sound(s)
    decreases s.hi - s.lo - cur
  {
    if cur >= s.hi - s.lo then Some([])
    else
      var first := PairAt(s, cur);
      if first.None? then None
      else
        var others := PairsFrom(s, first.value.1);
        if others.None? then None else Some([first.value.0] + others.value)
  }

  /** What is still to come, added to what has been found. */
  function Joined(pairs: seq<Pair>, others: Option<seq<Pair>>): Option<seq<Pair>> {
    if others.None? then None else Some(pairs + others.value)
  }

  method ParseSystemChunks(s: Slice) returns (pairs: Option<seq<Pair>>)
    requires Sound(s)
    ensures pairs == PairsFrom(s, 0)
  {
    hide PairsFrom, ChunkItemAt, Fill;
    var found: seq<Pair>, curOffset: nat := [], 0;
    JoinedEnds(s, found, 0);
    while curOffset < s.hi - s.lo
      invariant PairsFrom(s, 0) == Joined(found, PairsFrom(s, curOffset))
      decreases s.hi - s.lo - curOffset
    {
      NextPair(s, curOffset, found);
      var keyData := Slice(s.store, s.lo + curOffset, s.hi);
      KeyIsWhole(keyData);
      var key := Unmarshal(KEY, keyData);
      if key.None? {
        return None;
      }
      var itemData := From(s, curOffset + key.value.next);
      if itemData.None? {
        return None;
      }
      var item := ParseChunkItem(itemData.value);
      if item.None? {
        return None;
      }
      found := found + [Pair(key.value.values, item.value.chunk, item.value.stripes)];
      curOffset := curOffset + key.value.next + item.value.next;
    }
    JoinedEnds(s, found, curOffset);
    pairs := Some(found);
  }

  lemma JoinedEnds(s: Slice, found: seq<Pair>, cur: nat)
    requires Sound(s)
    ensures found == [] ==> Joined(found, PairsFrom(s, cur)) == PairsFrom(s, cur)
    ensures cur >= s.hi - s.lo ==> Joined(found, PairsFrom(s, cur)) == Some(found)
  {
    if PairsFrom(s, cur).Some? {
      assert [] + PairsFrom(s, cur).value == PairsFrom(s, cur).value;
      assert found + [] == found;
    }
  }

  lemma NextPair(s: Slice, cur: nat, found: seq<Pair>)
    requires Sound(s) && cur < s.hi - s.lo
    ensures var first := PairAt(s, cur);
      Joined(found, PairsFrom(s, cur)) ==
      if first.None? then None else Joined(found + [first.value.0], PairsFrom(s, first.value.1))
  {
    var first := PairAt(s, cur);
    if first.Some? && PairsFrom(s, first.value.1).Some? {
      var others := PairsFrom(s, first.value.1).value;
      assert found + ([first.value.0] + others) == (found + [first.value.0]) + others;
    }
  }

  // ----- When it panics

  lemma StripeIs(s: Slice)
    requires Sound(s)
    ensures Fill(STRIPE, s, 3).None? <==> s.lo == s.hi || s.lo + 16 > |s.store|
    ensures Fill(STRIPE, s, 3).Some? ==> Fill(STRIPE, s, 3).value.next == if s.lo + 16 <= s.hi then 32 else 16
  {
    Layout();
    assert Start(STRIPE, 0) == 0 && Start(STRIPE, 1) == 8 && Start(STRIPE, 2) == 16;
    PlainPanicsIff(STRIPE, s, 2);
    hide Start;
    assert STRIPE[2] == Array(16);
  }

  /** Any stripes are read if and only if the last one starts inside the slice, with its two
      numbers in the store.  Only the last one can be cut. */
  lemma {:induction false} StripesPanicIff(s: Slice, start: nat, n: nat)
    requires Sound(s) && n > 0
    ensures var last, stripes := start + 32 * (n - 1), StripesAt(s, start, n);
      && (stripes.None? <==> s.lo + last >= s.hi || s.lo + last + 16 > |s.store|)
      && (stripes.Some? ==> stripes.value.next == if s.lo + last + 16 <= s.hi then last + 32 else last + 16)
  {
    hide Fill;
    var last := start + 32 * (n - 1);
    if n > 1 {
      StripesPanicIff(s, start, n - 1);
    } else {
      assert StripesAt(s, start, 0) == Some(Stripes([], start));
    }
    if From(s, last).Some? {
      StripeIs(From(s, last).value);
    }
  }

  lemma ChunkIs(s: Slice)
    requires Sound(s)
    ensures Fill(CHUNK, s, 10).None? <==> s.lo + 48 > |s.store|
    ensures Fill(CHUNK, s, 10).Some? ==>
      && Fill(CHUNK, s, 10).value.next == 48
      && NofStripes(Fill(CHUNK, s, 10).value.values) == Unsigned(Peek(s.store, s.lo + 44, 2))
  {
    Layout();
    PlainPanicsIff(CHUNK, s, 10);
    if Fill(CHUNK, s, 10).Some? {
      FilledValue(CHUNK, s, 10, NOF_STRIPES);
    }
  }

  /** How many stripes the pair at a cursor announces. */
  function Announced(s: Slice, cur: nat): nat
    requires Sound(s) && s.lo + cur + 65 <= |s.store|
  {
    Unsigned(Peek(s.store, s.lo + cur + 61, 2))
  }

  /** A pair cannot be read where the key does not end inside the slice, key and chunk item
      reach behind the store, or the last stripe does not start inside the slice with its two
      numbers in the store. */
  predicate Unreadable(s: Slice, cur: nat)
    requires Sound(s)
  {
    || s.lo + cur + 17 > s.hi
    || s.lo + cur + 65 > |s.store|
    || (Announced(s, cur) > 0
        && var last := s.lo + cur + 65 + 32 * (Announced(s, cur) - 1);
           last >= s.hi || last + 16 > |s.store|)
  }

  lemma PairPanicsIff(s: Slice, cur: nat)
    requires Sound(s) && s.lo + cur < s.hi
    ensures PairAt(s, cur).None? <==> Unreadable(s, cur)
    ensures PairAt(s, cur).Some? ==>
      var end := cur + 65 + 32 * Announced(s, cur);
      PairAt(s, cur).value.1 == end || (s.lo + PairAt(s, cur).value.1 > s.hi && s.lo + end > s.hi)
  {
    hide Fill, Peek, StripesAt;
    var keyData := From(s, cur).value;
    KeyIsWhole(keyData);
    if s.lo + cur + 17 <= s.hi {
      var itemData := From(s, cur + 17).value;
      ChunkIs(itemData);
      if s.lo + cur + 65 <= |s.store| {
        var n := Announced(s, cur);
        if n > 0 {
          StripesPanicIff(itemData, 48, n);
        } else {
          NoStripes(itemData, 48);
        }
      }
    }
  }

  lemma NoStripes(s: Slice, start: nat)
    requires Sound(s)
    ensures StripesAt(s, start, 0) == Some(Stripes([], start))
  {
  }

  /** The place of the last pair that is looked at, or a place behind the end. */
  function LastPair(s: Slice, cur: nat): nat
    requires Sound(s)
    decreases s.hi - s.lo - cur
  {
    if s.lo + cur >= s.hi || Unreadable(s, cur) then cur
    else LastPair(s, cur + 65 + 32 * Announced(s, cur))
  }

  /** Parsing panics if and only if, following the announced sizes, it comes to a pair inside
      the array that cannot be read. */
  lemma {:induction false} PairsPanicIff(s: Slice, cur: nat)
    requires Sound(s)
    ensures PairsFrom(s, cur).None? <==> s.lo + LastPair(s, cur) < s.hi
    decreases s.hi - s.lo - cur
  {
    hide PairAt, Announced;
    if s.lo + cur < s.hi {
      PairPanicsIff(s, cur);
      if PairAt(s, cur).Some? {
        var end := cur + 65 + 32 * Announced(s, cur);
        PairsPanicIff(s, end);
        if PairAt(s, cur).value.1 != end {
          PairsPanicIff(s, PairAt(s, cur).value.1);
        }
      }
    }
  }

  /** An array of 65 bytes in a store of 2048, whose one chunk item announces one stripe. */
  function StripeMissing(): (s: Slice)
    ensures Sound(s)
  {
    Slice(seq(2048, k => if k == 61 then 1 else 0), 0, 65)
  }

  /** The stripe would start where the array ends: its numbers are in the store, but its array
      field looks at the first byte of an empty slice. */
  lemma StripeAtTheEndPanics()
    ensures PairsFrom(StripeMissing(), 0) == None
  {
    var s := StripeMissing();
    var count := Peek(s.store, 61, 2);
    assert count == [1, 0];
    assert Unsigned(count) == 1 + 256 * Unsigned(count[1..]);
    assert Unsigned(count[1..]) == 0 + 256 * Unsigned(count[1..][1..]);
    assert Announced(s, 0) == 1;
    PairPanicsIff(s, 0);
  }

  // ----- The encoder, and the round trip

  /** A pair that can be written down: all fields in range, and as many stripes as announced. */
  predicate WellFormed(p: Pair) {
    && HoldAll(KEY, p.key)
    && HoldAll(CHUNK, p.chunk)
    && |p.stripes| == NofStripes(p.chunk)
    && forall i {:trigger p.stripes[i]} :: 0 <= i < |p.stripes| ==> HoldAll(STRIPE, p.stripes[i])
  }

  function EncodeStripes(stripes: seq<seq<Value>>, n: nat): (bs: seq<byte>)
    requires n <= |stripes|
    requires forall i {:trigger stripes[i]} :: 0 <= i < |stripes| ==> HoldAll(STRIPE, stripes[i])
    ensures |bs| == 32 * n
  {
    Layout();
    if n == 0 then [] else EncodeStripes(stripes, n - 1) + EncodeFields(STRIPE, stripes[n - 1], 3)
  }

  function EncodePair(p: Pair): (bs: seq<byte>)
    requires WellFormed(p)
    ensures |bs| == 65 + 32 * |p.stripes|
  {
    Layout();
    EncodeFields(KEY, p.key, 3) + (EncodeFields(CHUNK, p.chunk, 10) + EncodeStripes(p.stripes, |p.stripes|))
  }

  function EncodePairs(pairs: seq<Pair>): (bs: seq<byte>)
    requires forall i :: 0 <= i < |pairs| ==> WellFormed(pairs[i])
  {
    if pairs == [] then [] else EncodePair(pairs[0]) + EncodePairs(pairs[1..])
  }

  lemma {:induction false} StripesRoundTrip(s: Slice, start: nat, stripes: seq<seq<Value>>, n: nat)
    requires Sound(s) && n <= |stripes|
    requires forall i {:trigger stripes[i]} :: 0 <= i < |stripes| ==> HoldAll(STRIPE, stripes[i])
    requires s.lo + start + 32 * n <= s.hi
    requires StandsAt(s.store, s.lo + start, EncodeStripes(stripes, n))
    ensures StripesAt(s, start, n) == Some(Stripes(stripes[..n], start + 32 * n))
  {
    hide Fill, EncodeFields, Start, HoldAll;
    if n > 0 {
      var last := EncodeFields(STRIPE, stripes[n - 1], 3);
      StandsAtParts(s.store, s.lo + start, EncodeStripes(stripes, n - 1), last);
      StripesRoundTrip(s, start, stripes, n - 1);
      Layout();
      UnmarshalInverts(STRIPE, stripes[n - 1], From(s, start + 32 * (n - 1)).value);
      assert stripes[..n] == stripes[..n - 1] + [stripes[n - 1]];
    }
  }

  lemma PairRoundTrip(s: Slice, cur: nat, p: Pair)
    requires Sound(s) && WellFormed(p)
    requires s.lo + cur + |EncodePair(p)| <= s.hi
    requires StandsAt(s.store, s.lo + cur, EncodePair(p))
    ensures PairAt(s, cur) == Some((p, cur + |EncodePair(p)|))
  {
    hide Fill, EncodeFields, Start, HoldAll, StripesAt, EncodeStripes;
    Layout();
    var at, count := s.lo + cur, |p.stripes|;
    var key, chunk, stripes :=
      EncodeFields(KEY, p.key, 3), EncodeFields(CHUNK, p.chunk, 10), EncodeStripes(p.stripes, count);
    StandsAtParts(s.store, at, key, chunk + stripes);
    StandsAtParts(s.store, at + 17, chunk, stripes);
    UnmarshalInverts(KEY, p.key, From(s, cur).value);
    var item := From(s, cur + 17).value;
    UnmarshalInverts(CHUNK, p.chunk, item);
    StripesRoundTrip(item, 48, p.stripes, count);
    assert p.stripes[..count] == p.stripes;
  }

  /** Parsing undoes the concatenation of any number of pairs with any number of stripes,
      whatever follows in the rest of the array. */
  lemma {:induction false} SystemChunksRoundTrip(s: Slice, cur: nat, pairs: seq<Pair>)
    requires Sound(s)
    requires forall i :: 0 <= i < |pairs| ==> WellFormed(pairs[i])
    requires s.lo + cur + |EncodePairs(pairs)| == s.hi
    requires StandsAt(s.store, s.lo + cur, EncodePairs(pairs))
    ensures PairsFrom(s, cur) == Some(pairs)
    decreases |pairs|
  {
    hide EncodePair, PairAt, WellFormed;
    if pairs != [] {
      var first, rest := EncodePair(pairs[0]), EncodePairs(pairs[1..]);
      StandsAtParts(s.store, s.lo + cur, first, rest);
      PairRoundTrip(s, cur, pairs[0]);
      SystemChunksRoundTrip(s, cur + |first|, pairs[1..]);
      assert [pairs[0]] + pairs[1..] == pairs;
    }
  }
}

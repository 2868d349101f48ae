/** Which records of the $MFT are handed on for parsing: a range, or a list of entries. */
module MftSelection {
  import opened Machine
  import opened Sequences
  import opened MftTableModel

  const UNBOUNDED: int := 0xffff_ffff

  /** The two range checks.  The first one compares `from` with what lies behind it. */
  predicate Refused(from: int, to: int, n: nat) {
    var behind := if from != -1 then n - from else n;
    from > behind || (to != UNBOUNDED && to > behind)
  }

  function Repeat(i: nat, times: nat): (picks: seq<nat>)
    ensures |picks| == times
    ensures forall j :: 0 <= j < times ==> picks[j] == i
  {
    seq(times, _ => i)
  }

  /** How often record i is written: the multiplicity in the selection, or once inside
      the range if nothing is selected. */
  function Times(selection: seq<int>, from: int, to: int, i: nat): nat {
    if i > to then 0
    else if selection == [] then if from <= i then 1 else 0
    else Count(selection, i)
  }

  /** The positions written by a full scan of the first n records. */
  function Picks(selection: seq<int>, from: int, to: int, n: nat): seq<nat> {
    if n == 0 then []
    else Picks(selection, from, to, n - 1) + Repeat(n - 1, Times(selection, from, to, n - 1))
  }

  // The records of the data that is given: whole ones, and perhaps a torn one at the end,
  // which is None if the capacity of the data does not cover it either.

  predicate Laid<T>(records: seq<Option<T>>, whole: nat) {
    && whole <= |records| <= whole + 1
    && forall i :: 0 <= i < whole ==> records[i].Some?
  }

  /** All picked records are there. */
  predicate Readable<T>(records: seq<Option<T>>, picks: seq<nat>) {
    forall j {:trigger picks[j]} :: 0 <= j < |picks| ==> picks[j] < |records| && records[picks[j]].Some?
  }

  function At<T>(records: seq<Option<T>>, picks: seq<nat>): (chosen: seq<T>)
    requires Readable(records, picks)
    ensures |chosen| == |picks|
    ensures forall j :: 0 <= j < |picks| ==> chosen[j] == records[picks[j]].value
  {
    seq(|picks|, j requires 0 <= j < |picks| => records[picks[j]].value)
  }

  // ----- What a full scan picks

  predicate Ascending(picks: seq<nat>, n: nat) {
    && (forall j :: 0 <= j < |picks| ==> picks[j] < n)
    && forall j, k :: 0 <= j < k < |picks| ==> picks[j] <= picks[k]
  }

  /** The picks are in ascending order. */
  lemma {:induction false} PicksAscend(selection: seq<int>, from: int, to: int, n: nat)
    ensures Ascending(Picks(selection, from, to, n), n)
  {
    if n > 0 {
      PicksAscend(selection, from, to, n - 1);
    }
  }

  lemma {:induction false} CountRepeat(i: nat, times: nat, x: nat)
    ensures Count(Repeat(i, times), x) == if i == x then times else 0
  {
    if times > 0 {
      assert Repeat(i, times)[..times - 1] == Repeat(i, times - 1);
      CountRepeat(i, times - 1, x);
    }
  }

  /** The picks are the selected entries up to the end of the range, as often as they were
      selected; or without a selection those of the range, once each. */
  lemma PicksCount(selection: seq<int>, from: int, to: int, n: nat, x: nat)
    ensures Count(Picks(selection, from, to, n), x)
         == if x >= n || x > to then 0
            else if |selection| > 0 then Count(selection, x)
            else if x >= from then 1
            else 0
  {
    PicksTimes(selection, from, to, n, x);
  }

  lemma {:induction false} PicksTimes(selection: seq<int>, from: int, to: int, n: nat, x: nat)
    ensures Count(Picks(selection, from, to, n), x) == if x < n then Times(selection, from, to, x) else 0
  {
    assert Count<nat>([], x) == 0;
    hide Count, Times;
    if n > 0 {
      PicksTimes(selection, from, to, n - 1, x);
      var more := Repeat(n - 1, Times(selection, from, to, n - 1));
      CountConcat(Picks(selection, from, to, n - 1), more, x);
      CountRepeat(n - 1, Times(selection, from, to, n - 1), x);
    }
  }

  /** Without a selection the picks are consecutive from the start of the range. */
  lemma {:induction false} RangeIsConsecutive(from: int, to: int, n: nat)
    ensures var first := if from < 0 then 0 else from;
      var last := if to < n then to else n - 1;
      var picks := Picks([], from, to, n);
      && |picks| == (if first <= last then last - first + 1 else 0)
      && forall j :: 0 <= j < |picks| ==> picks[j] == first + j
  {
    if n > 0 {
      RangeIsConsecutive(from, to, n - 1);
    }
  }

  lemma PickedIff(selection: seq<int>, from: int, to: int, n: nat, i: nat)
    ensures i in Picks(selection, from, to, n) <==> i < n && Times(selection, from, to, i) > 0
  {
    PicksTimes(selection, from, to, n, i);
    CountIn(Picks(selection, from, to, n), i);
  }

  // ----- Stopping early

  /** The number of selected entries that a scan of the first n records has met. */
  function Met(selection: seq<int>, to: int, n: nat): (met: nat)
    ensures met <= |selection|
  {
    if selection == [] then 0
    else
      var last := |selection| - 1;
      Met(selection[..last], to, n) + if 0 <= selection[last] < n && selection[last] <= to then 1 else 0
  }

  lemma {:induction false} MetOneMore(selection: seq<int>, to: int, n: nat)
    ensures Met(selection, to, n + 1) == Met(selection, to, n) + if n <= to then Count(selection, n) else 0
  {
    if selection != [] {
      MetOneMore(selection[..|selection| - 1], to, n);
    }
  }

  lemma {:induction false} MetNothing(selection: seq<int>, to: int)
    ensures Met(selection, to, 0) == 0
  {
    if selection != [] {
      MetNothing(selection[..|selection| - 1], to);
    }
  }

  lemma {:induction false} PicksAreMet(selection: seq<int>, from: int, to: int, n: nat)
    requires selection != []
    ensures |Picks(selection, from, to, n)| == Met(selection, to, n)
  {
    if n == 0 {
      MetNothing(selection, to);
    } else {
      PicksAreMet(selection, from, to, n - 1);
      MetOneMore(selection, to, n - 1);
    }
  }

  /** Once as many records are written as were selected, no selected entry is left. */
  lemma {:induction false} AllMet(selection: seq<int>, to: int, n: nat)
    requires Met(selection, to, n) == |selection|
    ensures forall k :: 0 <= k < |selection| ==> 0 <= selection[k] < n && selection[k] <= to
  {
    if selection != [] {
      AllMet(selection[..|selection| - 1], to, n);
    }
  }

  /** Nothing more is picked after the first n records. */
  ghost predicate Done(selection: seq<int>, from: int, to: int, n: nat) {
    forall i: nat {:trigger Times(selection, from, to, i)} :: i >= n ==> Times(selection, from, to, i) == 0
  }

  lemma BufferFullIsDone(selection: seq<int>, from: int, to: int, n: nat)
    requires selection != [] && |Picks(selection, from, to, n)| == |selection|
    ensures Done(selection, from, to, n)
  {
    PicksAreMet(selection, from, to, n);
    AllMet(selection, to, n);
    forall i: nat | i >= n ensures Times(selection, from, to, i) == 0 {
      CountIn(selection, i);
    }
  }

  lemma {:induction false} NothingIsLost(selection: seq<int>, from: int, to: int, n: nat, more: nat)
    requires n <= more && Done(selection, from, to, n)
    ensures Picks(selection, from, to, more) == Picks(selection, from, to, n)
  {
    if n < more {
      NothingIsLost(selection, from, to, n, more - 1);
      assert Times(selection, from, to, more - 1) == 0;
    }
  }

  lemma AtConcat<T>(records: seq<Option<T>>, a: seq<nat>, b: seq<nat>)
    requires Readable(records, a) && Readable(records, b)
    ensures Readable(records, a + b)
    ensures At(records, a + b) == At(records, a) + At(records, b)
  {
  }

  /** Writes record i once for each time it is selected. */
  method WriteSelected<T>(records: seq<Option<T>>, selection: seq<int>, i: nat, buf: seq<T>)
    returns (longer: Option<seq<T>>)
    requires i < |records|
    ensures Count(selection, i) == 0 ==> longer == Some(buf)
    ensures Count(selection, i) > 0 ==>
      longer == if records[i].Some? then Some(buf + seq(Count(selection, i), _ => records[i].value)) else None
  {
    var written := buf;
    for k := 0 to |selection|
      invariant Count(selection[..k], i) == 0 ==> written == buf
      invariant Count(selection[..k], i) > 0 ==>
        records[i].Some? && written == buf + seq(Count(selection[..k], i), _ => records[i].value)
    {
      assert selection[..k + 1][..k] == selection[..k];
      if i == selection[k] {
        if records[i].None? {
          CountIn(selection, i);
          return None;
        }
        written := written + [records[i].value];
      }
    }
    assert selection[..|selection|] == selection;
    longer := Some(written);
  }

  /** The record picked last cannot be read. */
  lemma TornRecord<T>(records: seq<Option<T>>, selection: seq<int>, from: int, to: int, i: nat)
    requires i + 1 == |records| && records[i].None? && Times(selection, from, to, i) > 0
    ensures !Readable(records, Picks(selection, from, to, |records|))
  {
    var before, last := Picks(selection, from, to, i), Repeat(i, Times(selection, from, to, i));
    assert (before + last)[|before|] == i;
  }

  lemma OneMorePicked<T>(records: seq<Option<T>>, selection: seq<int>, from: int, to: int, i: nat)
    requires i < |records| && Readable(records, Picks(selection, from, to, i))
    requires records[i].Some? || Times(selection, from, to, i) == 0
    ensures Readable(records, Picks(selection, from, to, i + 1))
    ensures At(records, Picks(selection, from, to, i + 1))
         == At(records, Picks(selection, from, to, i))
            + if records[i].Some? then seq(Times(selection, from, to, i), _ => records[i].value) else []
  {
    var more := Repeat(i, Times(selection, from, to, i));
    if records[i].Some? {
      assert At(records, more) == seq(|more|, _ => records[i].value);
      AtConcat(records, Picks(selection, from, to, i), more);
    } else {
      assert more == [];
      assert Picks(selection, from, to, i) + [] == Picks(selection, from, to, i);
    }
  }

  /** The records handed on.  The loop stops at the end of the range or as soon as the buffer
      is full, and the buffer is what a full scan would have collected.  It panics on the two
      range checks, and when it picks a torn record that cannot be read. */
  method ProcessMFT<T>(records: seq<Option<T>>, whole: nat, selection: seq<int>, from: int, to: int)
    returns (buf: Outcome<seq<T>>)
    requires Laid(records, whole)
    ensures var picks := Picks(selection, from, to, |records|);
      buf == if Refused(from, to, whole) || !Readable(records, picks) then Panics else Returns(At(records, picks))
  {
    var n := |records|;
    if Refused(from, to, whole) {
      return Panics;
    }
    var written: seq<T>, i := [], 0;
    while i < n && i <= to
      invariant 0 <= i <= n
      invariant Readable(records, Picks(selection, from, to, i))
      invariant written == At(records, Picks(selection, from, to, i))
    {
      var longer := WriteSelected(records, selection, i, written);
      if longer.None? {
        TornRecord(records, selection, from, to, i);
        return Panics;
      }
      if from <= i && selection == [] {
        if records[i].None? {
          TornRecord(records, selection, from, to, i);
          return Panics;
        }
        longer := Some(longer.value + [records[i].value]);
      }
      OneMorePicked(records, selection, from, to, i);
      written, i := longer.value, i + 1;
      assert written == At(records, Picks(selection, from, to, i));
      if from < i && |written| == |selection| {
        BufferFullIsDone(selection, from, to, i);
        break;
      }
    }
    if i < n {
      NothingIsLost(selection, from, to, i, n);
    }
    buf := Returns(written);
  }

  /** A torn record makes it panic exactly when it is picked. */
  lemma TornRecordIff<T>(records: seq<Option<T>>, whole: nat, selection: seq<int>, from: int, to: int)
    requires Laid(records, whole)
    ensures Readable(records, Picks(selection, from, to, |records|))
       <==> |records| == whole || records[whole].Some? || Times(selection, from, to, whole) == 0
  {
    var picks := Picks(selection, from, to, |records|);
    PicksAscend(selection, from, to, |records|);
    if |records| > whole && records[whole].None? && Times(selection, from, to, whole) > 0 {
      TornRecord(records, selection, from, to, whole);
    } else if |records| > whole && records[whole].None? {
      PickedIff(selection, from, to, |records|, whole);
    }
  }

  // ----- What becomes of a selection

  /** The records still carry the numbers of their positions in the $MFT. */
  predicate Numbered(records: seq<Option<Chunk>>) {
    forall i {:trigger records[i]} :: 0 <= i < |records| && records[i].Some? && records[i].value.Parsed? ==>
      records[i].value.header.entry == i
  }

  /** Record i is picked, and its number lies beyond the number of picks. */
  predicate TooFar(records: seq<Option<Chunk>>, selection: seq<int>, from: int, to: int, i: nat)
    requires i < |records|
  {
    && |Picks(selection, from, to, |records|)| <= i
    && records[i].Some? && records[i].value.Parsed?
    && Times(selection, from, to, i) > 0
  }

  /** The table is only as long as the selection, while records keep their numbers: placing
      them panics exactly when a selected record has a number beyond that length. */
  lemma SelectionPanicsIff(records: seq<Option<Chunk>>, selection: seq<int>, from: int, to: int)
    requires Numbered(records) && Readable(records, Picks(selection, from, to, |records|))
    ensures var picks := Picks(selection, from, to, |records|);
      Placed(At(records, picks), |picks|, |picks|).None?
      <==> exists i :: 0 <= i < |records| && TooFar(records, selection, from, to, i)
  {
    var picks := Picks(selection, from, to, |records|);
    var chosen := At(records, picks);
    PlacedPanicsIff(chosen, |picks|, |picks|);
    if j :| 0 <= j < |picks| && chosen[j].Parsed? && chosen[j].header.entry >= |picks| {
      PickedIff(selection, from, to, |records|, picks[j]);
      assert TooFar(records, selection, from, to, picks[j]);
    }
    if i :| 0 <= i < |records| && TooFar(records, selection, from, to, i) {
      PickedIff(selection, from, to, |records|, i);
      var j :| 0 <= j < |picks| && picks[j] == i;
      assert chosen[j].Parsed? && chosen[j].header.entry >= |picks|;
    }
  }

  // ----- Ten records

  function Ten(): (records: seq<Option<Chunk>>)
    ensures |records| == 10 && Laid(records, 10)
    ensures forall i :: 0 <= i < 10 ==> records[i] == Some(Parsed(Header(i, 1, [], [])))
  {
    seq(10, i requires 0 <= i < 10 => Some(Parsed(Header(i, 1, [], []))))
  }

  /** Of ten numbered records, selecting number 5 makes the table panic. */
  lemma SelectingFivePanics()
    ensures var picks := Picks([5], -1, UNBOUNDED, 10);
      && !Refused(-1, UNBOUNDED, 10)
      && Readable(Ten(), picks)
      && Placed(At(Ten(), picks), |picks|, |picks|).None?
  {
    TornRecordIff(Ten(), 10, [5], -1, UNBOUNDED);
    PicksAreMet([5], -1, UNBOUNDED, 10);
    assert Count([5], 5) == 1 by {
      CountIn([5], 5);
    }
    assert TooFar(Ten(), [5], -1, UNBOUNDED, 5);
    SelectionPanicsIff(Ten(), [5], -1, UNBOUNDED);
  }

  /** A start counts twice: once against the records behind it, once itself.  A bounded end is
      refused if it lies behind what is left. */
  lemma RefusedIff(from: nat, to: int, n: nat)
    ensures Refused(-1, to, n) <==> to != 4294967295 && to > n
    ensures Refused(from, to, n) <==> 2 * from > n || (to != 4294967295 && from + to > n)
  {
  }

  /** A range that starts beyond the middle is refused, one that starts before it is not. */
  lemma SecondHalfIsRefused(from: nat, n: nat)
    ensures Refused(from, UNBOUNDED, n) <==> 2 * from > n
    ensures Refused(6, UNBOUNDED, 10)
  {
  }
}

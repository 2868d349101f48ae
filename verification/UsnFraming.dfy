/** What the USN parser makes of journal records that are laid end to end. */
module UsnFraming {
  import opened Machine
  import opened LittleEndian
  import opened Sequences
  import opened Outcomes
  import opened UsnPipeline

  /** Two bytes, the less significant one first. */
  function Pair(low: byte, high: byte): nat {
    low as int + 256 * high as int
  }

  /** A whole journal record: 60 bytes, and two for each unit of the name length that stands
      at bytes 58 and 59. */
  predicate IsFrame(w: seq<byte>) {
    |w| >= 60 && |w| == 60 + 2 * Pair(w[58], w[59])
  }

  predicate AllFrames(frames: seq<seq<byte>>) {
    forall i :: 0 <= i < |frames| ==> IsFrame(frames[i])
  }

  function EndToEnd(frames: seq<seq<byte>>): seq<byte> {
    if frames == [] then [] else frames[0] + EndToEnd(frames[1..])
  }

  /** The record names an entry: the eight bytes from byte 8 on are not all zero. */
  predicate NamesAnEntry(w: seq<byte>)
    requires |w| >= 60
  {
    exists i :: 8 <= i < 16 && w[i] != 0
  }

  /** The records that name an entry, whole and in order. */
  function Named(frames: seq<seq<byte>>): seq<Record>
    requires AllFrames(frames)
  {
    if frames == [] then []
    else (if NamesAnEntry(frames[0]) then [frames[0]] else []) + Named(frames[1..])
  }

  lemma {:induction false} ZeroIff(bs: seq<byte>)
    ensures Unsigned(bs) == 0 <==> forall i :: 0 <= i < |bs| ==> bs[i] == 0
  {
    if bs != [] {
      ZeroIff(bs[1..]);
      if Unsigned(bs[1..]) == 0 && bs[0] == 0 {
        forall i | 0 <= i < |bs| ensures bs[i] == 0 {
          if i > 0 {
            assert bs[1..][i - 1] == bs[i];
          }
        }
      } else if forall i :: 0 <= i < |bs| ==> bs[i] == 0 {
        forall i | 0 <= i < |bs| - 1 ensures bs[1..][i] == 0 {
          assert bs[1..][i] == bs[i + 1];
        }
      }
    }
  }

  lemma TwoBytes(bs: seq<byte>)
    requires |bs| == 2
    ensures Unsigned(bs) == Pair(bs[0], bs[1])
  {
    assert Unsigned(bs[1..]) == bs[1] + 256 * Unsigned(bs[1..][1..]);
  }

  /** A record that stands in the fragment is found, and passed on if it names an entry. */
  lemma FrameIsFound(f: Fragment, offset: nat, w: seq<byte>)
    requires IsFrame(w) && StandsAt(f.bytes, offset, w) && offset + |w| <= f.len
    requires offset + 62 <= |f.bytes|
    ensures FrameAt(f, offset) == Framed(offset + |w|, w, NamesAnEntry(w))
  {
    var size, entry := f.bytes[offset + 58..offset + 60], f.bytes[offset + 8..offset + 16];
    TwoBytes(size);
    assert size[0] == w[58] && size[1] == w[59];
    assert f.bytes[offset..offset + |w|] == w;
    ZeroIff(entry);
    forall i | 0 <= i < 8 ensures entry[i] == w[8 + i] {
      assert f.bytes[offset + (8 + i)] == w[8 + i];
    }
    if i :| 8 <= i < 16 && w[i] != 0 {
      assert entry[i - 8] != 0;
    }
  }

  /** No whole record stands at this place: its head or what the head announces does not fit. */
  predicate NoFrameAt(f: Fragment, at: nat)
    requires at <= f.len
  {
    || f.len - at < 60
    || f.len - at < 60 + 2 * Pair(f.bytes[at + 58], f.bytes[at + 59])
  }

  /** These records stand in the fragment from offset on, end to end, and no other behind them. */
  ghost predicate Consists(f: Fragment, offset: nat, frames: seq<seq<byte>>) {
    && AllFrames(frames)
    && StandsAt(f.bytes, offset, EndToEnd(frames))
    && offset + |EndToEnd(frames)| <= f.len
    && NoFrameAt(f, offset + |EndToEnd(frames)|)
  }

  lemma NothingIsFound(f: Fragment, at: nat)
    requires at <= f.len && f.len + 2 <= |f.bytes| && NoFrameAt(f, at)
    ensures FrameAt(f, at) == Short
  {
    if f.len - at >= 60 {
      var size := f.bytes[at + 58..at + 60];
      TwoBytes(size);
      assert size[0] == f.bytes[at + 58] && size[1] == f.bytes[at + 59];
    }
  }

  /** Of a fragment with two spare bytes of capacity, exactly those of its records are passed
      on that name an entry, whole and in order. */
  lemma {:induction false} FramesRoundTrip(f: Fragment, offset: nat, frames: seq<seq<byte>>)
    requires Consists(f, offset, frames) && f.len + 2 <= |f.bytes|
    ensures offset <= f.len && ParseFrom(f, offset) == Parsed(Named(frames), false)
    decreases |frames|
  {
    if frames == [] {
      NothingIsFound(f, offset);
    } else {
      var first, rest := frames[0], EndToEnd(frames[1..]);
      StandsAtParts(f.bytes, offset, first, rest);
      FrameIsFound(f, offset, first);
      hide FrameAt, NamesAnEntry, IsFrame, StandsAt;
      FramesRoundTrip(f, offset + |first|, frames[1..]);
    }
  }

  /** And every such fragment consists of records. */
  lemma {:induction false} EveryFragmentConsists(f: Fragment, offset: nat) returns (frames: seq<seq<byte>>)
    requires offset <= f.len && f.len + 2 <= |f.bytes|
    ensures Consists(f, offset, frames)
    decreases f.len - offset
  {
    if NoFrameAt(f, offset) {
      frames := [];
    } else {
      var w := f.bytes[offset..offset + 60 + 2 * Pair(f.bytes[offset + 58], f.bytes[offset + 59])];
      assert w[58] == f.bytes[offset + 58] && w[59] == f.bytes[offset + 59];
      var rest := EveryFragmentConsists(f, offset + |w|);
      frames := [w] + rest;
      assert frames[1..] == rest;
      StandsAtJoined(f.bytes, offset, w, EndToEnd(rest));
    }
  }

  /** A single record for entry 42. */
  lemma EntryFortyTwo(bytes: seq<byte>)
    requires |bytes| == 62 && forall i :: 0 <= i < 62 ==> bytes[i] == if i == 8 then 42 else 0
    ensures ParseFrom(Raw(bytes, 60), 0) == Parsed([bytes[..60]], false)
  {
    var w := bytes[..60];
    assert w[8] != 0;
    assert EndToEnd([w]) == w + EndToEnd([w][1..]) == w;
    assert Named([w]) == [w] + Named([w][1..]) == [w];
    FramesRoundTrip(Raw(bytes, 60), 0, [w]);
  }
}

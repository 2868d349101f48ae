/** The four loops that turn a run list into bytes, and the one cluster map behind them. */
module ClusterGather {
  import opened Machine
  import opened Files
  import opened RunLists

  /** The parameters that the loops share.  Offsets are in bytes. */
  datatype Volume = Volume(read: Reader, diskSize: int, start: int, clusterSize: nat)

  // ----- Prefix sums and fragments

  /** The cluster number after n relative moves. */
  function Sum(runs: seq<Run>, n: nat): int
    requires n <= |runs|
  {
    if n == 0 then 0 else Sum(runs, n - 1) + runs[n - 1].offset
  }

  /** Where run i starts on the disk, in 64 bits. */
  function Position(v: Volume, runs: seq<Run>, i: nat): int
    requires i < |runs|
  {
    ToInt64(v.start + Sum(runs, i + 1) * v.clusterSize)
  }

  function Fragment(v: Volume, runs: seq<Run>, i: nat): seq<byte>
    requires i < |runs|
  {
    (v.read)(Position(v, runs, i), ToInt64(runs[i].length * v.clusterSize))
  }

  /** The loops stop before a last run that is all zero. */
  function Live(runs: seq<Run>): nat {
    if runs != [] && runs[|runs| - 1] == Run(0, 0) then |runs| - 1 else |runs|
  }

  /** The bytes of the first n runs. */
  function Area(v: Volume, runs: seq<Run>, n: nat): seq<byte>
    requires n <= |runs|
  {
    if n == 0 then [] else Area(v, runs, n - 1) + Fragment(v, runs, n - 1)
  }

  predicate Dense(run: Run) {
    run.offset != 0 && run.length > 0
  }

  /** The fragments of the dense runs among the first n. */
  function DenseFragments(v: Volume, runs: seq<Run>, n: nat): seq<seq<byte>>
    requires n <= |runs|
  {
    if n == 0 then []
    else
      DenseFragments(v, runs, n - 1) + if Dense(runs[n - 1]) then [Fragment(v, runs, n - 1)] else []
  }

  function Flatten(fragments: seq<seq<byte>>): seq<byte> {
    if fragments == [] then [] else Flatten(fragments[..|fragments| - 1]) + fragments[|fragments| - 1]
  }

  /** Where the loops that compare with the disk size give up, from run i on. */
  function LocateEnd(v: Volume, runs: seq<Run>, i: nat): (end: nat)
    requires i <= Live(runs)
    ensures i <= end <= Live(runs)
    decreases Live(runs) - i
  {
    if i == Live(runs) || Position(v, runs, i) > v.diskSize then i else LocateEnd(v, runs, i + 1)
  }

  predicate OutsidePartition(v: Volume, runs: seq<Run>, i: nat)
    requires i < |runs|
  {
    ToInt64(Sum(runs, i + 1) * v.clusterSize) >= ToInt64(v.diskSize - v.start)
  }

  /** Where the loop that compares with the partition size gives up, from run i on. */
  function PartitionEnd(v: Volume, runs: seq<Run>, i: nat): (end: nat)
    requires i <= Live(runs)
    ensures i <= end <= Live(runs)
    decreases Live(runs) - i
  {
    if i == Live(runs) || OutsidePartition(v, runs, i) then i else PartitionEnd(v, runs, i + 1)
  }

  // ----- 64-bit arithmetic is exact up to the last step

  lemma WrapShift(x: int, k: int)
    ensures ToInt64(x + k * 0x1_0000_0000_0000_0000) == ToInt64(x)
  {
  }

  lemma WrapIs(x: int) returns (k: int)
    ensures ToInt64(x) == x + k * 0x1_0000_0000_0000_0000
  {
    k := (ToInt64(x) - x) / 0x1_0000_0000_0000_0000;
  }

  lemma WrapAdd(x: int, y: int)
    ensures ToInt64(ToInt64(x) + y) == ToInt64(x + y)
    ensures ToInt64(x + ToInt64(y)) == ToInt64(x + y)
    ensures ToInt64(ToInt64(x) + ToInt64(y)) == ToInt64(x + y)
  {
    hide ToInt64;
    var k := WrapIs(x);
    var m := WrapIs(y);
    WrapShift(x + y, k);
    WrapShift(x + y, m);
    WrapShift(x + y, k + m);
  }

  lemma WrapMul(x: int, c: nat)
    ensures ToInt64(ToInt64(x) * c) == ToInt64(x * c)
  {
    var k := (ToInt64(x) - x) / 0x1_0000_0000_0000_0000;
    assert ToInt64(x) == x + k * 0x1_0000_0000_0000_0000;
    calc {
      ToInt64(x) * c;
      (x + k * 0x1_0000_0000_0000_0000) * c;
      { Distribute(x, k * 0x1_0000_0000_0000_0000, c); }
      x * c + (k * 0x1_0000_0000_0000_0000) * c;
      x * c + (k * c) * 0x1_0000_0000_0000_0000;
    }
    WrapShift(x * c, k * c);
  }

  lemma Distribute(x: int, y: int, c: int)
    ensures (x + y) * c == x * c + y * c
  {
  }

  // ----- The loops

  predicate IsZero(run: RunList)
    reads run
  {
    run.offset == 0 && run.length == 0 && run.next == null
  }

  /** Gathers the $MFT: no bound is checked. */
  method CollectMFTArea(v: Volume, head: RunList, ghost nodes: seq<RunList>, ghost runs: seq<Run>)
    returns (buf: seq<byte>)
    requires Spells(nodes, runs) && nodes[0] == head
    ensures buf == Area(v, runs, Live(runs))
  {
    buf := [];
    var runlist, offset := head, 0;
    ghost var i := 0;
    while !IsZero(runlist)
      invariant i < |runs| && runlist == nodes[i]
      invariant runlist.next == if i + 1 < |nodes| then nodes[i + 1] else null
      invariant offset == ToInt64(Sum(runs, i))
      invariant buf == Area(v, runs, i)
      decreases |runs| - i
    {
      PositionFromClusters(v, runs, i, offset);
      WrapMul(runlist.length, v.clusterSize);
      offset := ToInt64(offset + runlist.offset);
      var clusters := ToInt64(runlist.length);
      var data := (v.read)(ToInt64(v.start + ToInt64(offset * v.clusterSize)), ToInt64(clusters * v.clusterSize));
      buf := buf + data;
      if runlist.next == null {
        return;
      }
      runlist, i := runlist.next, i + 1;
    }
  }

  /** The first n bytes of a buffer whose capacity is that large; behind what was written it
      holds zeros. */
  function Truncated(buf: seq<byte>, n: nat): (bs: seq<byte>)
    ensures |bs| == n
    ensures forall k :: 0 <= k < n ==> bs[k] == if k < |buf| then buf[k] else 0
  {
    seq(n, k requires 0 <= k < n => if k < |buf| then buf[k] else 0)
  }

  /** What becomes of an attribute whose runs add up to `total` clusters and whose actual
      length is given: it is skipped, or a size that is negative as an int panics, or the
      gathered bytes are cut to the actual length. */
  function Contents(v: Volume, total: uint64, actual: uint64, buf: seq<byte>): Outcome<seq<byte>> {
    var length := ToInt64(ToInt64(total) * v.clusterSize);
    if length == 0 then Fails
    else if length < 0 then Panics
    else if ToInt64(actual) > length then Fails
    else if ToInt64(actual) < 0 then Panics
    else Returns(Truncated(buf, ToInt64(actual)))
  }

  /** Gathers a non-resident attribute: stops at the end of the partition. */
  method GatherAttribute(v: Volume, total: uint64, actual: uint64, head: RunList,
                         ghost nodes: seq<RunList>, ghost runs: seq<Run>)
    returns (contents: Outcome<seq<byte>>)
    requires Spells(nodes, runs) && nodes[0] == head
    ensures contents == Contents(v, total, actual, Area(v, runs, PartitionEnd(v, runs, 0)))
  {
    var length := ToInt64(ToInt64(total) * v.clusterSize);
    if length == 0 {
      return Fails;
    }
    if length < 0 {
      return Panics;
    }
    var buf := GatherArea(v, head, nodes, runs);
    var actualLen := ToInt64(actual);
    if actualLen > length {
      return Fails;
    }
    if actualLen < 0 {
      return Panics;
    }
    contents := Returns(seq(actualLen, k requires 0 <= k < actualLen => if k < |buf| then buf[k] else 0));
  }

  /** The loop over its runs. */
  method GatherArea(v: Volume, head: RunList, ghost nodes: seq<RunList>, ghost runs: seq<Run>)
    returns (buf: seq<byte>)
    requires Spells(nodes, runs) && nodes[0] == head
    ensures buf == Area(v, runs, PartitionEnd(v, runs, 0))
  {
    buf := [];
    var runlist, offset := head, 0;
    ghost var i := 0;
    while !IsZero(runlist)
      invariant i < |runs| && runlist == nodes[i] && i <= Live(runs)
      invariant runlist.next == if i + 1 < |nodes| then nodes[i + 1] else null
      invariant offset == ToInt64(Sum(runs, i))
      invariant buf == Area(v, runs, i)
      invariant PartitionEnd(v, runs, 0) == PartitionEnd(v, runs, i)
      decreases |runs| - i
    {
      PositionFromClusters(v, runs, i, offset);
      WrapMul(runlist.length, v.clusterSize);
      offset := ToInt64(offset + runlist.offset);
      var clusters := ToInt64(runlist.length);
      if ToInt64(offset * v.clusterSize) >= ToInt64(v.diskSize - v.start) {
        return;
      }
      var data := (v.read)(ToInt64(v.start + ToInt64(offset * v.clusterSize)), ToInt64(clusters * v.clusterSize));
      buf := buf + data;
      if runlist.next == null {
        return;
      }
      runlist, i := runlist.next, i + 1;
    }
  }

  /** The fragments that are sent for the runs of a file.  A log message divides by the size of
      a cluster for every run that starts on the disk. */
  function FragmentsSent(v: Volume, runs: seq<Run>): Outcome<seq<seq<byte>>> {
    var end := LocateEnd(v, runs, 0);
    if v.clusterSize == 0 && end > 0 then Panics else Returns(DenseFragments(v, runs, end))
  }

  /** One run further: where it starts, and that the shortcut of scaling a 64-bit length is exact. */
  lemma NextRun(v: Volume, runs: seq<Run>, i: nat, offset: int)
    requires i < |runs| && ToInt64(offset) == ToInt64(v.start + Sum(runs, i) * v.clusterSize)
    ensures var next := ToInt64(offset + ToInt64(runs[i].offset * v.clusterSize));
      && next == Position(v, runs, i)
      && ToInt64(next) == ToInt64(v.start + Sum(runs, i + 1) * v.clusterSize)
    ensures ToInt64(ToInt64(runs[i].length) * v.clusterSize) == ToInt64(runs[i].length * v.clusterSize)
  {
    PositionFromBytes(v, runs, i, offset);
    WrapTwice(v.start + Sum(runs, i + 1) * v.clusterSize);
    WrapMul(runs[i].length, v.clusterSize);
  }

  /** What a run that is not the last all-zero one says about the end. */
  lemma EndAt(v: Volume, runs: seq<Run>, i: nat)
    requires i < |runs| && (i + 1 < |runs| || runs[i].offset != 0 || runs[i].length != 0)
    ensures i < Live(runs)
    ensures LocateEnd(v, runs, i) == if Position(v, runs, i) > v.diskSize then i else LocateEnd(v, runs, i + 1)
    ensures i + 1 == |runs| ==> Live(runs) == i + 1 && LocateEnd(v, runs, i + 1) == i + 1
  {
  }

  /** Sends the data of a file in fragments: resident data at once, otherwise those of its
      runs. */
  method LocateDataAsync(v: Volume, resident: Option<seq<byte>>, head: RunList,
                         ghost nodes: seq<RunList>, ghost runs: seq<Run>)
    returns (sent: Outcome<seq<seq<byte>>>)
    requires resident.None? ==> Spells(nodes, runs) && nodes[0] == head
    ensures sent == if resident.Some? then Returns([resident.value]) else FragmentsSent(v, runs)
  {
    if resident.Some? {
      return Returns([resident.value]);
    }
    sent := SendFragments(v, head, nodes, runs);
  }

  /** The loop over its runs: skips sparse runs and stops past the disk. */
  method SendFragments(v: Volume, head: RunList, ghost nodes: seq<RunList>, ghost runs: seq<Run>)
    returns (sent: Outcome<seq<seq<byte>>>)
    requires Spells(nodes, runs) && nodes[0] == head
    ensures sent == FragmentsSent(v, runs)
  {
    hide Position, Sum, ToInt64;
    SumStarts(v, runs);
    var fragments: seq<seq<byte>> := [];
    var runlist, offset := head, v.start;
    ghost var i := 0;
    while !IsZero(runlist)
      invariant i < |runs| && runlist == nodes[i] && i <= Live(runs)
      invariant runlist.next == if i + 1 < |nodes| then nodes[i + 1] else null
      invariant ToInt64(offset) == ToInt64(v.start + Sum(runs, i) * v.clusterSize)
      invariant fragments == DenseFragments(v, runs, i)
      invariant LocateEnd(v, runs, 0) == LocateEnd(v, runs, i)
      invariant v.clusterSize == 0 ==> i == 0
      decreases |runs| - i
    {
      NextRun(v, runs, i, offset);
      EndAt(v, runs, i);
      offset := ToInt64(offset + ToInt64(runlist.offset * v.clusterSize));
      if offset > v.diskSize {
        return Returns(fragments);
      }
      if v.clusterSize == 0 {
        return Panics;
      }
      if runlist.offset != 0 && runlist.length > 0 {
        fragments := fragments + [(v.read)(offset, ToInt64(ToInt64(runlist.length) * v.clusterSize))];
      }
      assert fragments == DenseFragments(v, runs, i + 1);
      if runlist.next == null {
        assert LocateEnd(v, runs, 0) == i + 1;
        return Returns(fragments);
      }
      runlist, i := runlist.next, i + 1;
    }
    sent := Returns(fragments);
  }

  lemma SumStarts(v: Volume, runs: seq<Run>)
    ensures v.start + Sum(runs, 0) * v.clusterSize == v.start
  {
  }

  /** The bytes of the fragments that a file consists of. */
  function DataOf(v: Volume, runs: seq<Run>): seq<byte> {
    Flatten(DenseFragments(v, runs, LocateEnd(v, runs, 0)))
  }

  /** The same, where a log message about each fragment divides by the size of a cluster. */
  function Gathered(v: Volume, runs: seq<Run>): Outcome<seq<byte>> {
    if v.clusterSize == 0 && DenseFragments(v, runs, LocateEnd(v, runs, 0)) != [] then Panics
    else Returns(DataOf(v, runs))
  }

  /** The file that is handed on: resident data, or what is gathered from its runs.  Room is
      made for the logical size first, which panics if that is negative. */
  function FileSent(v: Volume, logicalSize: int, resident: Option<seq<byte>>, name: string, id: nat, runs: seq<Run>)
    : Outcome<AskedFile>
  {
    if logicalSize < 0 then Panics
    else if resident.Some? then Returns(AskedFile(name, id, resident.value))
    else
      match Gathered(v, runs)
      case Returns(content) => Returns(AskedFile(name, id, content))
      case _ => Panics
  }

  /** Gathers a file in one buffer and hands it on. */
  method LocateData(v: Volume, logicalSize: int, resident: Option<seq<byte>>, name: string, id: nat, head: RunList,
                    ghost nodes: seq<RunList>, ghost runs: seq<Run>)
    returns (file: Outcome<AskedFile>)
    requires resident.None? ==> Spells(nodes, runs) && nodes[0] == head
    ensures file == FileSent(v, logicalSize, resident, name, id, runs)
  {
    if logicalSize < 0 {
      return Panics;
    }
    if resident.Some? {
      return Returns(AskedFile(name, id, resident.value));
    }
    var buf := GatherData(v, head, nodes, runs);
    file := if buf.Returns? then Returns(AskedFile(name, id, buf.value)) else Panics;
  }

  /** The loop over its runs, with the same skips and stop. */
  method GatherData(v: Volume, head: RunList, ghost nodes: seq<RunList>, ghost runs: seq<Run>)
    returns (data: Outcome<seq<byte>>)
    requires Spells(nodes, runs) && nodes[0] == head
    ensures data == Gathered(v, runs)
  {
    hide Position, Sum, Flatten, ToInt64;
    FlattenNothing();
    SumStarts(v, runs);
    var buf: seq<byte> := [];
    var runlist, offset := head, v.start;
    ghost var i := 0;
    while !IsZero(runlist)
      invariant i < |runs| && runlist == nodes[i] && i <= Live(runs)
      invariant runlist.next == if i + 1 < |nodes| then nodes[i + 1] else null
      invariant ToInt64(offset) == ToInt64(v.start + Sum(runs, i) * v.clusterSize)
      invariant buf == Flatten(DenseFragments(v, runs, i))
      invariant LocateEnd(v, runs, 0) == LocateEnd(v, runs, i)
      invariant v.clusterSize == 0 ==> DenseFragments(v, runs, i) == []
      decreases |runs| - i
    {
      NextRun(v, runs, i, offset);
      EndAt(v, runs, i);
      FlattenNext(v, runs, i);
      offset := ToInt64(offset + ToInt64(runlist.offset * v.clusterSize));
      if offset > v.diskSize {
        return Returns(buf);
      }
      if runlist.offset != 0 && runlist.length > 0 {
        buf := buf + (v.read)(offset, ToInt64(ToInt64(runlist.length) * v.clusterSize));
        if v.clusterSize == 0 {
          MoreFragments(v, runs, i + 1, LocateEnd(v, runs, 0));
          return Panics;
        }
      }
      assert buf == Flatten(DenseFragments(v, runs, i + 1));
      if runlist.next == null {
        assert LocateEnd(v, runs, 0) == i + 1;
        return Returns(buf);
      }
      runlist, i := runlist.next, i + 1;
    }
    data := Returns(buf);
  }

  lemma {:induction false} MoreFragments(v: Volume, runs: seq<Run>, m: nat, n: nat)
    requires m <= n <= |runs| && DenseFragments(v, runs, m) != []
    ensures DenseFragments(v, runs, n) != []
  {
    if m < n {
      MoreFragments(v, runs, m, n - 1);
    }
  }

  lemma FlattenNothing()
    ensures Flatten([]) == []
  {
  }

  lemma FlattenSnoc(fragments: seq<seq<byte>>, last: seq<byte>)
    ensures Flatten(fragments + [last]) == Flatten(fragments) + last
  {
    assert (fragments + [last])[..|fragments + [last]| - 1] == fragments;
  }

  lemma FlattenNext(v: Volume, runs: seq<Run>, i: nat)
    requires i < |runs|
    ensures Flatten(DenseFragments(v, runs, i + 1))
         == Flatten(DenseFragments(v, runs, i)) + if Dense(runs[i]) then Fragment(v, runs, i) else []
  {
    if Dense(runs[i]) {
      FlattenSnoc(DenseFragments(v, runs, i), Fragment(v, runs, i));
    } else {
      assert DenseFragments(v, runs, i) + [] == DenseFragments(v, runs, i);
    }
  }

  /** Adding up clusters and scaling once gives the position. */
  lemma PositionFromClusters(v: Volume, runs: seq<Run>, i: nat, offset: int)
    requires i < |runs| && offset == ToInt64(Sum(runs, i))
    ensures var next := ToInt64(offset + runs[i].offset);
      && next == ToInt64(Sum(runs, i + 1))
      && ToInt64(next * v.clusterSize) == ToInt64(Sum(runs, i + 1) * v.clusterSize)
      && ToInt64(v.start + ToInt64(next * v.clusterSize)) == Position(v, runs, i)
  {
    hide ToInt64;
    WrapAdd(Sum(runs, i), runs[i].offset);
    WrapMul(Sum(runs, i + 1), v.clusterSize);
    WrapAdd(v.start, Sum(runs, i + 1) * v.clusterSize);
  }

  /** So does adding up scaled moves. */
  lemma PositionFromBytes(v: Volume, runs: seq<Run>, i: nat, offset: int)
    requires i < |runs| && ToInt64(offset) == ToInt64(v.start + Sum(runs, i) * v.clusterSize)
    ensures ToInt64(offset + ToInt64(runs[i].offset * v.clusterSize)) == Position(v, runs, i)
  {
    hide ToInt64;
    ScaledMove(v.start, Sum(runs, i), runs[i].offset, v.clusterSize, offset);
  }

  lemma ScaledMove(start: int, sum: int, move: int, c: int, offset: int)
    requires ToInt64(offset) == ToInt64(start + sum * c)
    ensures ToInt64(offset + ToInt64(move * c)) == ToInt64(start + (sum + move) * c)
  {
    hide ToInt64;
    Distribute(sum, move, c);
    WrapAdd(offset, move * c);
    WrapSame(offset, start + sum * c, move * c);
  }

  lemma WrapTwice(x: int)
    ensures ToInt64(ToInt64(x)) == ToInt64(x)
  {
  }

  lemma WrapSame(x: int, y: int, m: int)
    requires ToInt64(x) == ToInt64(y)
    ensures ToInt64(x + m) == ToInt64(y + m)
  {
  }

  // ----- One map, four loops

  /** Neither bound stops a loop. */
  predicate NeitherStops(v: Volume, runs: seq<Run>) {
    forall i :: 0 <= i < Live(runs) ==> Position(v, runs, i) <= v.diskSize && !OutsidePartition(v, runs, i)
  }

  lemma {:induction false} EndsAreLive(v: Volume, runs: seq<Run>, i: nat)
    requires NeitherStops(v, runs) && i <= Live(runs)
    ensures LocateEnd(v, runs, i) == Live(runs) && PartitionEnd(v, runs, i) == Live(runs)
    decreases Live(runs) - i
  {
    if i < Live(runs) {
      EndsAreLive(v, runs, i + 1);
    }
  }

  lemma {:induction false} AllDense(v: Volume, runs: seq<Run>, n: nat)
    requires n <= |runs| && forall i :: 0 <= i < n ==> Dense(runs[i])
    ensures Flatten(DenseFragments(v, runs, n)) == Area(v, runs, n)
  {
    if n > 0 {
      AllDense(v, runs, n - 1);
      FlattenNext(v, runs, n - 1);
    }
  }

  // In plain integers

  /** Where run i starts on the disk, as long as nothing wraps. */
  function Place(v: Volume, runs: seq<Run>, i: nat): int
    requires i < |runs|
  {
    v.start + Sum(runs, i + 1) * v.clusterSize
  }

  /** The partition starts on the disk, and all places and moves fit 64 bits. */
  predicate Fitting(v: Volume, runs: seq<Run>) {
    && 0 <= v.start <= v.diskSize < 0x8000_0000_0000_0000
    && forall i {:trigger Place(v, runs, i)} :: 0 <= i < |runs| ==>
         v.start - 0x8000_0000_0000_0000 <= Place(v, runs, i) < 0x8000_0000_0000_0000
  }

  /** Each of the first n runs starts before the end of the disk. */
  predicate AllBefore(v: Volume, runs: seq<Run>, n: nat)
    requires n <= |runs|
  {
    forall i {:trigger Place(v, runs, i)} :: 0 <= i < n ==> Place(v, runs, i) < v.diskSize
  }

  lemma StopsAre(v: Volume, runs: seq<Run>, i: nat)
    requires Fitting(v, runs) && i < |runs|
    ensures OutsidePartition(v, runs, i) <==> Place(v, runs, i) >= v.diskSize
    ensures Position(v, runs, i) == Place(v, runs, i)
  {
    var moved := Sum(runs, i + 1) * v.clusterSize;
    assert Place(v, runs, i) == v.start + moved;
    hide Sum, ToInt64;
    FitsIn64Bits(moved);
    FitsIn64Bits(v.start + moved);
    FitsIn64Bits(v.diskSize - v.start);
  }

  lemma FitsIn64Bits(x: int)
    requires -0x8000_0000_0000_0000 <= x < 0x8000_0000_0000_0000
    ensures ToInt64(x) == x
  {
  }

  /** Gathering an attribute ends at the first run that starts at the end of the disk or behind
      it. */
  lemma {:induction false} PartitionEndIs(v: Volume, runs: seq<Run>, i: nat)
    requires Fitting(v, runs) && i <= Live(runs) && AllBefore(v, runs, i)
    ensures var end := PartitionEnd(v, runs, i);
      AllBefore(v, runs, end) && (end < Live(runs) ==> Place(v, runs, end) >= v.diskSize)
    decreases Live(runs) - i
  {
    hide Place, OutsidePartition, Sum;
    if i < Live(runs) {
      StopsAre(v, runs, i);
      if Place(v, runs, i) < v.diskSize {
        PartitionEndIs(v, runs, i + 1);
      }
    }
  }

  /** Locating the data of a file ends at the first run that starts behind the end of the disk. */
  lemma {:induction false} DataEndIs(v: Volume, runs: seq<Run>, i: nat)
    requires Fitting(v, runs) && i <= Live(runs)
    requires forall j {:trigger Place(v, runs, j)} :: 0 <= j < i ==> Place(v, runs, j) <= v.diskSize
    ensures var end := LocateEnd(v, runs, i);
      && (forall j {:trigger Place(v, runs, j)} :: 0 <= j < end ==> Place(v, runs, j) <= v.diskSize)
      && (end < Live(runs) ==> Place(v, runs, end) > v.diskSize)
    decreases Live(runs) - i
  {
    hide Place, Position, Sum;
    if i < Live(runs) {
      StopsAre(v, runs, i);
      if Place(v, runs, i) <= v.diskSize {
        DataEndIs(v, runs, i + 1);
      }
    }
  }

  lemma InsideNeitherStops(v: Volume, runs: seq<Run>)
    requires Fitting(v, runs)
    ensures AllBefore(v, runs, Live(runs)) <==> NeitherStops(v, runs)
  {
    hide Place, Position, OutsidePartition, Sum;
    forall i | 0 <= i < Live(runs)
      ensures Place(v, runs, i) < v.diskSize <==> Position(v, runs, i) <= v.diskSize && !OutsidePartition(v, runs, i)
    {
      StopsAre(v, runs, i);
    }
  }

  /** When every run has an offset and a length and starts before the end of the disk, the four
      loops deliver the same bytes.  With clusters of size zero, the two area loops still do,
      and the two file loops panic as soon as there is a run. */
  lemma FourLoopsAgree(v: Volume, runs: seq<Run>)
    requires Fitting(v, runs) && AllBefore(v, runs, Live(runs))
    requires forall i :: 0 <= i < Live(runs) ==> Dense(runs[i])
    ensures var area := Area(v, runs, Live(runs));
      && Area(v, runs, PartitionEnd(v, runs, 0)) == area
      && if v.clusterSize > 0 || Live(runs) == 0 then
           && Gathered(v, runs) == Returns(area)
           && FragmentsSent(v, runs).Returns? && Flatten(FragmentsSent(v, runs).value) == area
         else Gathered(v, runs) == Panics && FragmentsSent(v, runs) == Panics
  {
    InsideNeitherStops(v, runs);
    UnstoppedLoopsAgree(v, runs);
  }

  /** The same in 64-bit arithmetic, wherever it wraps. */
  lemma UnstoppedLoopsAgree(v: Volume, runs: seq<Run>)
    requires NeitherStops(v, runs) && forall i :: 0 <= i < Live(runs) ==> Dense(runs[i])
    ensures var area := Area(v, runs, Live(runs));
      && Area(v, runs, PartitionEnd(v, runs, 0)) == area
      && if v.clusterSize > 0 || Live(runs) == 0 then
           && Gathered(v, runs) == Returns(area)
           && FragmentsSent(v, runs).Returns? && Flatten(FragmentsSent(v, runs).value) == area
         else Gathered(v, runs) == Panics && FragmentsSent(v, runs) == Panics
  {
    EndsAreLive(v, runs, 0);
    AllDense(v, runs, Live(runs));
    if Live(runs) > 0 {
      assert DenseFragments(v, runs, 1) == DenseFragments(v, runs, 0) + [Fragment(v, runs, 0)];
      MoreFragments(v, runs, 1, Live(runs));
    }
  }

  /** The reader returns as many bytes as asked for. */
  ghost predicate FullReads(v: Volume) {
    forall p, n :: 0 <= n ==> |(v.read)(p, n)| == n
  }

  predicate SizesFit(v: Volume, runs: seq<Run>) {
    forall i :: 0 <= i < |runs| ==> runs[i].length * v.clusterSize < 0x8000_0000_0000_0000
  }

  predicate Sparse(run: Run) {
    run.offset == 0 && run.length > 0
  }

  lemma FragmentSize(v: Volume, runs: seq<Run>, i: nat)
    requires FullReads(v) && SizesFit(v, runs) && i < |runs|
    ensures |Fragment(v, runs, i)| == runs[i].length * v.clusterSize
  {
    assert runs[i].length * v.clusterSize >= 0;
  }

  /** The bytes that the file loops leave out are those of the sparse runs. */
  lemma {:induction false} MissingBytes(v: Volume, runs: seq<Run>, n: nat)
    requires FullReads(v) && SizesFit(v, runs) && v.clusterSize > 0 && n <= |runs|
    ensures var kept, all := |Flatten(DenseFragments(v, runs, n))|, |Area(v, runs, n)|;
      && kept <= all
      && (kept == all <==> forall i :: 0 <= i < n ==> !Sparse(runs[i]))
  {
    hide Fragment, Flatten, DenseFragments, FullReads, SizesFit;
    if n == 0 {
      NothingGathered(v, runs);
    } else {
      MissingBytes(v, runs, n - 1);
      FlattenNext(v, runs, n - 1);
      FragmentSize(v, runs, n - 1);
      Scales(runs[n - 1].length, v.clusterSize);
    }
  }

  lemma NothingGathered(v: Volume, runs: seq<Run>)
    ensures Flatten(DenseFragments(v, runs, 0)) == [] && Area(v, runs, 0) == []
  {
  }

  lemma Scales(x: nat, c: nat)
    requires c > 0
    ensures x * c > 0 <==> x > 0
  {
  }

  lemma {:induction false} NoSparse(v: Volume, runs: seq<Run>, n: nat)
    requires FullReads(v) && SizesFit(v, runs) && n <= |runs|
    requires forall i :: 0 <= i < n ==> !Sparse(runs[i])
    ensures Flatten(DenseFragments(v, runs, n)) == Area(v, runs, n)
  {
    hide Fragment, Flatten, FullReads, SizesFit;
    if n == 0 {
      FlattenNothing();
    } else {
      NoSparse(v, runs, n - 1);
      FlattenNext(v, runs, n - 1);
      FragmentSize(v, runs, n - 1);
    }
  }

  /** A file with a sparse run comes out too short: the sparse clusters are dropped, not
      filled.  The file loops and the area loops agree exactly when no run is sparse. */
  lemma AgreeIffNoSparse(v: Volume, runs: seq<Run>)
    requires FullReads(v) && SizesFit(v, runs) && v.clusterSize > 0 && NeitherStops(v, runs)
    ensures Gathered(v, runs) == Returns(Area(v, runs, Live(runs)))
       <==> forall i :: 0 <= i < Live(runs) ==> !Sparse(runs[i])
  {
    EndsAreLive(v, runs, 0);
    MissingBytes(v, runs, Live(runs));
    if forall i :: 0 <= i < Live(runs) ==> !Sparse(runs[i]) {
      NoSparse(v, runs, Live(runs));
    }
  }

  // ----- Deleting the zero-offset runs

  function Moving(runs: seq<Run>): (kept: seq<Run>)
    ensures |kept| <= |runs|
  {
    if runs == [] then []
    else
      var last := |runs| - 1;
      Moving(runs[..last]) + if runs[last].offset != 0 then [runs[last]] else []
  }

  /** Fragments only depend on the runs up to their own. */
  lemma {:induction false} SameSum(a: seq<Run>, b: seq<Run>, n: nat)
    requires n <= |a| && n <= |b| && forall i :: 0 <= i < n ==> a[i] == b[i]
    ensures Sum(a, n) == Sum(b, n)
  {
    if n > 0 {
      SameSum(a, b, n - 1);
    }
  }

  lemma {:induction false} SameDense(v: Volume, a: seq<Run>, b: seq<Run>, n: nat)
    requires n <= |a| && n <= |b| && forall i :: 0 <= i < n ==> a[i] == b[i]
    ensures DenseFragments(v, a, n) == DenseFragments(v, b, n)
  {
    if n > 0 {
      SameDense(v, a, b, n - 1);
      SameSum(a, b, n);
    }
  }

  lemma {:induction false} MovingSum(runs: seq<Run>)
    ensures Sum(Moving(runs), |Moving(runs)|) == Sum(runs, |runs|)
  {
    if runs != [] {
      var last := |runs| - 1;
      var front := Moving(runs[..last]);
      MovingSum(runs[..last]);
      SameSum(runs[..last], runs, last);
      if runs[last].offset != 0 {
        SameSum(front, front + [runs[last]], |front|);
      } else {
        assert Moving(runs) == front;
      }
    }
  }

  /** Zero-offset runs contribute nothing and move nothing. */
  lemma {:induction false} MovingFragments(v: Volume, runs: seq<Run>)
    ensures DenseFragments(v, Moving(runs), |Moving(runs)|) == DenseFragments(v, runs, |runs|)
  {
    if runs != [] {
      var last := |runs| - 1;
      var front, r := Moving(runs[..last]), runs[last];
      MovingFragments(v, runs[..last]);
      SameDense(v, runs[..last], runs, last);
      if r.offset != 0 {
        SameDense(v, front, front + [r], |front|);
        MovingSum(runs);
        assert Position(v, front + [r], |front|) == Position(v, runs, last);
      } else {
        assert Moving(runs) == front;
      }
    }
  }

  /** Shortening a prefix gives a prefix of the shortened list. */
  lemma {:induction false} MovingStart(runs: seq<Run>, n: nat)
    requires n <= |runs|
    ensures var front := Moving(runs[..n]);
      |front| <= |Moving(runs)| && forall i :: 0 <= i < |front| ==> Moving(runs)[i] == front[i]
    decreases |runs|
  {
    if n == |runs| {
      assert runs[..n] == runs;
    } else {
      var front := runs[..|runs| - 1];
      assert front[..n] == runs[..n];
      MovingStart(front, n);
    }
  }

  predicate NoneStops(v: Volume, runs: seq<Run>, n: nat)
    requires n <= |runs|
  {
    forall i :: 0 <= i < n ==> Position(v, runs, i) <= v.diskSize
  }

  lemma SameStops(v: Volume, a: seq<Run>, b: seq<Run>, n: nat)
    requires n <= |a| && n <= |b| && (forall i :: 0 <= i < n ==> a[i] == b[i])
    requires NoneStops(v, a, n)
    ensures NoneStops(v, b, n)
  {
    forall i | 0 <= i < n ensures Position(v, b, i) <= v.diskSize {
      SameSum(a, b, i + 1);
      assert Position(v, a, i) <= v.diskSize;
    }
  }

  lemma {:induction false} LocateEndIs(v: Volume, runs: seq<Run>, i: nat, end: nat)
    requires i <= end <= Live(runs) && NoneStops(v, runs, end)
    requires end == Live(runs) || Position(v, runs, end) > v.diskSize
    ensures LocateEnd(v, runs, i) == end
    decreases end - i
  {
    if i < end {
      LocateEndIs(v, runs, i + 1, end);
    }
  }

  lemma {:induction false} LocateEndStops(v: Volume, runs: seq<Run>, i: nat)
    requires i <= Live(runs) && NoneStops(v, runs, i)
    ensures var end := LocateEnd(v, runs, i);
      NoneStops(v, runs, end) && (end == Live(runs) || Position(v, runs, end) > v.diskSize)
    decreases Live(runs) - i
  {
    if i < Live(runs) && Position(v, runs, i) <= v.diskSize {
      LocateEndStops(v, runs, i + 1);
    }
  }

  lemma {:induction false} MovingNoneStops(v: Volume, runs: seq<Run>)
    requires NoneStops(v, runs, |runs|)
    ensures NoneStops(v, Moving(runs), |Moving(runs)|)
  {
    if runs != [] {
      var last := |runs| - 1;
      var front := Moving(runs[..last]);
      SameStops(v, runs, runs[..last], last);
      MovingNoneStops(v, runs[..last]);
      MovingSum(runs);
      SameStops(v, front, Moving(runs), |front|);
      assert Position(v, runs, last) <= v.diskSize;
    }
  }

  /** A stop happens at a run that moves. */
  lemma StopMoves(v: Volume, runs: seq<Run>, end: nat)
    requires ToInt64(v.start) <= v.diskSize
    requires end < |runs| && NoneStops(v, runs, end) && Position(v, runs, end) > v.diskSize
    ensures runs[end].offset != 0
  {
    if end > 0 {
      assert Position(v, runs, end - 1) <= v.diskSize;
    } else {
      assert Sum(runs, end) * v.clusterSize == 0;
    }
  }

  lemma MovingIsLive(runs: seq<Run>)
    ensures Live(Moving(runs)) == |Moving(runs)|
    decreases |runs|
  {
    if runs != [] {
      MovingIsLive(runs[..|runs| - 1]);
    }
  }

  /** Deleting the zero-offset runs changes neither the fragments nor what is gathered, stop or
      no stop, as long as the partition itself starts on the disk.  What is sent as fragments
      changes only if clusters have size zero: then any run at all makes that loop panic. */
  lemma ZeroOffsetsDoNotMatter(v: Volume, runs: seq<Run>)
    requires ToInt64(v.start) <= v.diskSize
    ensures Gathered(v, Moving(runs)) == Gathered(v, runs)
    ensures FragmentsSent(v, Moving(runs)) == FragmentsSent(v, runs)
       <==> v.clusterSize > 0 || (Live(runs) > 0 <==> |Moving(runs)| > 0)
  {
    FragmentsStay(v, runs);
    if v.clusterSize == 0 {
      NoStopAtSizeZero(v, runs);
      NoStopAtSizeZero(v, Moving(runs));
      MovingIsLive(runs);
    }
  }

  lemma NoStopAtSizeZero(v: Volume, runs: seq<Run>)
    requires ToInt64(v.start) <= v.diskSize && v.clusterSize == 0
    ensures LocateEnd(v, runs, 0) == Live(runs)
  {
    LocateEndStops(v, runs, 0);
  }

  /** With clusters of size zero, gathering panics if and only if some run has an offset and a
      length, and sending fragments panics if and only if there is any run. */
  lemma ZeroClustersPanicIff(v: Volume, runs: seq<Run>)
    requires ToInt64(v.start) <= v.diskSize && v.clusterSize == 0
    ensures Gathered(v, runs) == Panics <==> exists i :: 0 <= i < |runs| && Dense(runs[i])
    ensures FragmentsSent(v, runs) == Panics <==> Live(runs) > 0
  {
    NoStopAtSizeZero(v, runs);
    NoFragmentsIff(v, runs, Live(runs));
  }

  lemma {:induction false} NoFragmentsIff(v: Volume, runs: seq<Run>, n: nat)
    requires n <= |runs|
    ensures DenseFragments(v, runs, n) == [] <==> forall i :: 0 <= i < n ==> !Dense(runs[i])
  {
    if n > 0 {
      NoFragmentsIff(v, runs, n - 1);
    }
  }

  lemma FragmentsStay(v: Volume, runs: seq<Run>)
    requires ToInt64(v.start) <= v.diskSize
    ensures DenseFragments(v, Moving(runs), LocateEnd(v, Moving(runs), 0))
         == DenseFragments(v, runs, LocateEnd(v, runs, 0))
  {
    var end := LocateEnd(v, runs, 0);
    LocateEndStops(v, runs, 0);
    SameStops(v, runs, runs[..end], end);
    MovingNoneStops(v, runs[..end]);
    MovingStart(runs, end);
    var cut := |Moving(runs[..end])|;
    SameStops(v, Moving(runs[..end]), Moving(runs), cut);
    MovingIsLive(runs);
    CutIsEnd(v, runs, end);
    LocateEndIs(v, Moving(runs), 0, cut);
    MovingFragments(v, runs[..end]);
    SameDense(v, Moving(runs[..end]), Moving(runs), cut);
    SameDense(v, runs[..end], runs, end);
  }

  /** Where the original stops, the shortened list has nothing left or stops as well. */
  lemma CutIsEnd(v: Volume, runs: seq<Run>, end: nat)
    requires ToInt64(v.start) <= v.diskSize
    requires end <= Live(runs) && NoneStops(v, runs, end)
    requires end == Live(runs) || Position(v, runs, end) > v.diskSize
    ensures var cut := |Moving(runs[..end])|;
      && cut <= |Moving(runs)|
      && (cut == |Moving(runs)| || Position(v, Moving(runs), cut) > v.diskSize)
  {
    if end < Live(runs) {
      StopMoves(v, runs, end);
      MovingRunKept(v, runs, end);
    } else if end < |runs| {
      assert runs[..end] == runs[..|runs| - 1];
    } else {
      assert runs[..end] == runs;
    }
  }

  /** A run that moves keeps its position in the shortened list. */
  lemma MovingRunKept(v: Volume, runs: seq<Run>, i: nat)
    requires i < |runs| && runs[i].offset != 0
    ensures var cut := |Moving(runs[..i])|;
      cut < |Moving(runs)| && Position(v, Moving(runs), cut) == Position(v, runs, i)
  {
    var longer := runs[..i + 1];
    assert longer[..i] == runs[..i];
    MovingSum(longer);
    SameSum(longer, runs, i + 1);
    MovingStart(runs, i + 1);
    SameSum(Moving(longer), Moving(runs), |Moving(longer)|);
  }

  // ----- The cluster map

  /** The cluster of the partition that holds virtual cluster vcn. */
  function Cluster(runs: seq<Run>, vcn: nat): int
    requires vcn < TotalLength(runs)
  {
    var front := runs[..|runs| - 1];
    if vcn < TotalLength(front) then Cluster(front, vcn)
    else Sum(runs, |runs|) + vcn - TotalLength(front)
  }

  ghost predicate Reads(v: Volume, disk: seq<byte>) {
    ReadsFrom(v.read, disk)
  }

  predicate RunOnDisk(v: Volume, runs: seq<Run>, disk: seq<byte>, i: nat)
    requires i < |runs|
  {
    var p := v.start + Sum(runs, i + 1) * v.clusterSize;
    0 <= p && p + runs[i].length * v.clusterSize <= |disk|
  }

  predicate OnDisk(v: Volume, runs: seq<Run>, disk: seq<byte>) {
    forall i :: 0 <= i < |runs| ==> RunOnDisk(v, runs, disk, i)
  }

  lemma FragmentOnDisk(v: Volume, runs: seq<Run>, i: nat, disk: seq<byte>)
    requires Reads(v, disk) && OnDisk(v, runs, disk) && i < |runs|
    ensures var p, n := v.start + Sum(runs, i + 1) * v.clusterSize, runs[i].length * v.clusterSize;
      && 0 <= p && 0 <= n && p + n <= |disk| && |Fragment(v, runs, i)| == n
      && forall k :: 0 <= k < n ==> Fragment(v, runs, i)[k] == disk[p + k]
  {
    assert RunOnDisk(v, runs, disk, i);
    ProductNat(runs[i].length, v.clusterSize);
  }

  lemma ProductNat(x: nat, c: nat)
    ensures x * c >= 0
  {
  }

  lemma {:induction false} SameArea(v: Volume, a: seq<Run>, b: seq<Run>, n: nat)
    requires n <= |a| && n <= |b| && forall i :: 0 <= i < n ==> a[i] == b[i]
    ensures Area(v, a, n) == Area(v, b, n)
  {
    if n > 0 {
      SameArea(v, a, b, n - 1);
      SameSum(a, b, n);
    }
  }

  /** Byte b of virtual cluster vcn comes from byte b of the cluster that the map names, past
      the start of the partition; and there are no other bytes. */
  lemma {:induction false} AreaIsMapped(v: Volume, runs: seq<Run>, disk: seq<byte>)
    requires Reads(v, disk) && OnDisk(v, runs, disk)
    ensures |Area(v, runs, |runs|)| == TotalLength(runs) * v.clusterSize
    ensures forall vcn: nat, b: nat :: vcn < TotalLength(runs) && b < v.clusterSize ==>
      ByteIsMapped(v, runs, disk, vcn, b)
    decreases |runs|
  {
    if runs != [] {
      var last := |runs| - 1;
      var front, c := runs[..last], v.clusterSize;
      forall i | 0 <= i < last
        ensures RunOnDisk(v, front, disk, i)
      {
        SameSum(front, runs, i + 1);
        assert RunOnDisk(v, runs, disk, i);
      }
      AreaIsMapped(v, front, disk);
      SameArea(v, front, runs, last);
      FragmentOnDisk(v, runs, last, disk);
      Distribute(TotalLength(front), runs[last].length, c);
      forall vcn: nat, b: nat | vcn < TotalLength(runs) && b < c
        ensures ByteIsMapped(v, runs, disk, vcn, b)
      {
        OneMoreRunMapped(v, runs, disk, vcn, b);
      }
    }
  }

  /** Stopping before a last all-zero run loses nothing, so this is what the area loops gather. */
  lemma GatheredIsAll(v: Volume, runs: seq<Run>, disk: seq<byte>)
    requires Reads(v, disk) && OnDisk(v, runs, disk)
    ensures Area(v, runs, Live(runs)) == Area(v, runs, |runs|)
  {
    if Live(runs) < |runs| {
      FragmentOnDisk(v, runs, Live(runs), disk);
      assert Fragment(v, runs, Live(runs)) == [];
    }
  }

  lemma {:induction false} MovingArea(v: Volume, runs: seq<Run>, disk: seq<byte>, n: nat)
    requires Reads(v, disk) && OnDisk(v, runs, disk) && n <= |runs|
    requires forall i :: 0 <= i < |runs| ==> runs[i].offset != 0
    ensures Flatten(DenseFragments(v, runs, n)) == Area(v, runs, n)
  {
    hide Fragment, Flatten, OnDisk, Reads;
    if n == 0 {
      FlattenNothing();
    } else {
      MovingArea(v, runs, disk, n - 1);
      FlattenNext(v, runs, n - 1);
      FragmentOnDisk(v, runs, n - 1, disk);
    }
  }

  lemma {:induction false} MovingOffsets(runs: seq<Run>)
    ensures forall i :: 0 <= i < |Moving(runs)| ==> Moving(runs)[i].offset != 0
  {
    if runs != [] {
      MovingOffsets(runs[..|runs| - 1]);
    }
  }

  lemma NoStopOnDisk(v: Volume, runs: seq<Run>, disk: seq<byte>)
    requires Reads(v, disk) && OnDisk(v, runs, disk) && |disk| <= v.diskSize
    ensures NoneStops(v, runs, |runs|)
  {
    forall i | 0 <= i < |runs| ensures Position(v, runs, i) <= v.diskSize {
      assert RunOnDisk(v, runs, disk, i);
      ProductNat(runs[i].length, v.clusterSize);
    }
  }

  /** The data of a file, sparse runs or not: byte b of its n-th cluster comes from byte b of
      the cluster that the map of the runs with an offset names; and there are no other
      bytes. */
  lemma FileIsMapped(v: Volume, runs: seq<Run>, disk: seq<byte>)
    requires Reads(v, disk) && 0 <= v.start <= |disk| <= v.diskSize
    requires OnDisk(v, Moving(runs), disk)
    ensures v.clusterSize > 0 ==>
      && Gathered(v, runs) == Returns(DataOf(v, runs))
      && FragmentsSent(v, runs).Returns? && Flatten(FragmentsSent(v, runs).value) == DataOf(v, runs)
    ensures DataOf(v, runs) == Area(v, Moving(runs), |Moving(runs)|)
    ensures |DataOf(v, runs)| == TotalLength(Moving(runs)) * v.clusterSize
    ensures forall n: nat, b: nat :: n < TotalLength(Moving(runs)) && b < v.clusterSize ==>
      ByteIsMapped(v, Moving(runs), disk, n, b)
  {
    var moving := Moving(runs);
    FragmentsStay(v, runs);
    NoStopOnDisk(v, moving, disk);
    MovingIsLive(runs);
    LocateEndIs(v, moving, 0, |moving|);
    MovingOffsets(runs);
    MovingArea(v, moving, disk, |moving|);
    AreaIsMapped(v, moving, disk);
  }

  ghost predicate ByteIsMapped(v: Volume, runs: seq<Run>, disk: seq<byte>, vcn: nat, b: nat)
    requires vcn < TotalLength(runs)
  {
    var area := Area(v, runs, |runs|);
    var from, to := v.start + Cluster(runs, vcn) * v.clusterSize + b, vcn * v.clusterSize + b;
    0 <= to < |area| && 0 <= from < |disk| && area[to] == disk[from]
  }

  lemma OneMoreRunMapped(v: Volume, runs: seq<Run>, disk: seq<byte>, vcn: nat, b: nat)
    requires Reads(v, disk) && OnDisk(v, runs, disk) && runs != []
    requires vcn < TotalLength(runs) && b < v.clusterSize
    requires var front := runs[..|runs| - 1];
      && |Area(v, front, |front|)| == TotalLength(front) * v.clusterSize
      && (vcn < TotalLength(front) ==> ByteIsMapped(v, front, disk, vcn, b))
    ensures ByteIsMapped(v, runs, disk, vcn, b)
  {
    hide Reads, OnDisk, Fragment;
    var last := |runs| - 1;
    var front, c := runs[..last], v.clusterSize;
    var before := TotalLength(front);
    SameArea(v, front, runs, last);
    var area, frag := Area(v, front, last), Fragment(v, runs, last);
    if vcn < before {
      InRun(vcn, before, b, c);
      assert ByteIsMapped(v, front, disk, vcn, b);
      assert (area + frag)[vcn * c + b] == area[vcn * c + b];
    } else {
      FragmentOnDisk(v, runs, last, disk);
      var k := vcn - before;
      InRun(k, runs[last].length, b, c);
      Distribute(before, k, c);
      Distribute(Sum(runs, |runs|), k, c);
      assert (area + frag)[|area| + (k * c + b)] == frag[k * c + b];
    }
  }

  lemma InRun(k: nat, length: nat, b: nat, c: nat)
    requires k < length && b < c
    ensures 0 <= k * c + b < length * c
  {
    assert (k + 1) * c <= length * c;
  }

  // ----- What an attribute comes to

  /** The ways in which it comes out: skipped, at its actual length, or with a panic if a size
      exceeds 63 bits. */
  lemma ContentsIs(v: Volume, total: uint64, actual: uint64, buf: seq<byte>)
    requires total * v.clusterSize < 0x1_0000_0000_0000_0000
    ensures var length, contents := total * v.clusterSize, Contents(v, total, actual, buf);
      && (length == 0 ==> contents == Fails)
      && (length >= 0x8000_0000_0000_0000 ==> contents == Panics)
      && (0 < length < 0x8000_0000_0000_0000 ==>
            contents == if actual <= length then Returns(Truncated(buf, actual))
                        else if actual < 0x8000_0000_0000_0000 then Fails
                        else Panics)
  {
    WrapMul(total, v.clusterSize);
    SignOf(total * v.clusterSize);
    SignOf(actual);
    hide ToInt64, Truncated;
  }

  lemma SignOf(x: nat)
    requires x < 0x1_0000_0000_0000_0000
    ensures ToInt64(x) == if x < 0x8000_0000_0000_0000 then x else x - 0x1_0000_0000_0000_0000
  {
  }

  /** When every run lies on the disk before its end, byte b of virtual cluster vcn of the
      contents, up to the actual length, is byte b of the cluster that the map names. */
  lemma AttributeIsMapped(v: Volume, runs: seq<Run>, disk: seq<byte>, actual: uint64)
    requires Reads(v, disk) && OnDisk(v, runs, disk)
    requires Fitting(v, runs) && AllBefore(v, runs, Live(runs))
    requires TotalLength(runs) * v.clusterSize < 0x8000_0000_0000_0000 && TotalLength(runs) < TWO_TO_64
    requires 0 < TotalLength(runs) * v.clusterSize && actual <= TotalLength(runs) * v.clusterSize
    ensures var contents := Contents(v, TotalLength(runs), actual, Area(v, runs, PartitionEnd(v, runs, 0)));
      && contents.Returns? && |contents.value| == actual
      && forall vcn: nat, b: nat :: vcn < TotalLength(runs) && b < v.clusterSize ==>
           AttributeByte(v, runs, disk, contents.value, vcn, b)
  {
    hide Reads, OnDisk, Fitting, AllBefore, Contents;
    InsideNeitherStops(v, runs);
    EndsAreLive(v, runs, 0);
    GatheredIsAll(v, runs, disk);
    AreaIsMapped(v, runs, disk);
    var area := Area(v, runs, |runs|);
    ContentsIs(v, TotalLength(runs), actual, area);
    forall vcn: nat, b: nat | vcn < TotalLength(runs) && b < v.clusterSize
      ensures AttributeByte(v, runs, disk, Truncated(area, actual), vcn, b)
    {
      assert ByteIsMapped(v, runs, disk, vcn, b);
    }
  }

  ghost predicate AttributeByte(v: Volume, runs: seq<Run>, disk: seq<byte>, bs: seq<byte>, vcn: nat, b: nat)
    requires vcn < TotalLength(runs)
  {
    var from, to := v.start + Cluster(runs, vcn) * v.clusterSize + b, vcn * v.clusterSize + b;
    0 <= to < |bs| ==> 0 <= from < |disk| && bs[to] == disk[from]
  }

  /** A run in the middle of the disk is gathered, not skipped. */
  lemma MiddleOfTheDisk(v: Volume)
    requires v.diskSize == 0x4000_0000 && v.start == 0x10_0000 && v.clusterSize == 4096
    ensures PartitionEnd(v, [Run(100, 1)], 0) == 1
  {
    var runs := [Run(100, 1)];
    assert Sum(runs, 1) == Sum(runs, 0) + 100;
    PartitionEndIs(v, runs, 0);
  }

  // ----- What is handed on for a file

  /** Resident data is handed on as it is, other data as gathered, with the name and the id;
      a negative logical size panics first. */
  lemma FileSentIs(v: Volume, size: int, resident: Option<seq<byte>>, name: string, id: nat, runs: seq<Run>)
    ensures size < 0 ==> FileSent(v, size, resident, name, id, runs) == Panics
    ensures size >= 0 && resident.Some? ==>
      FileSent(v, size, resident, name, id, runs) == Returns(AskedFile(name, id, resident.value))
    ensures size >= 0 && resident.None? && v.clusterSize > 0 ==>
      FileSent(v, size, resident, name, id, runs) == Returns(AskedFile(name, id, DataOf(v, runs)))
    ensures FileSent(v, size, resident, name, id, runs) == Panics
       <==> size < 0 || (resident.None? && Gathered(v, runs) == Panics)
  {
  }

  // ----- A sparse file

  /** A disk of one byte per cluster, on which every byte is 7. */
  function Sevens(): Volume {
    Volume((p, n) => if n < 0 then [] else seq(n, _ => 7), 100, 0, 1)
  }

  /** A file of one sparse cluster comes out empty, while the area of its runs is one byte. */
  lemma SparseFileIsLost()
    ensures DataOf(Sevens(), [Run(0, 1)]) == []
    ensures Area(Sevens(), [Run(0, 1)], 1) == [7]
  {
    SparseRunIsLost(Sevens(), [Run(0, 1)]);
  }

  lemma SparseRunIsLost(v: Volume, runs: seq<Run>)
    requires v == Sevens() && runs == [Run(0, 1)]
    ensures DataOf(v, runs) == []
    ensures Area(v, runs, 1) == [7]
  {
    assert Sum(runs, 1) == Sum(runs, 0) + 0 == 0;
    assert Position(v, runs, 0) == 0;
    assert LocateEnd(v, runs, 0) == 1;
    assert DenseFragments(v, runs, 1) == DenseFragments(v, runs, 0);
    assert Fragment(v, runs, 0) == [7];
    assert Area(v, runs, 1) == Area(v, runs, 0) + Fragment(v, runs, 0);
  }
}

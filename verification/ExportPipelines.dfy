/** Exporting files and exporting free space: what the producers put on their channels,
    what arrives, and when the export comes to an end. */
module ExportPipelines {
  import opened Machine
  import opened Files
  import opened Outcomes
  import opened Sequences
  import opened ChannelMachine
  import opened FreeSpace

  // ----- Files

  /** A record to export: what becomes of its own file, and of those of its linked records.
      Gathering a file can panic. */
  datatype ExportRecord = ExportRecord(isFolder: bool, own: Outcome<AskedFile>, linked: seq<Outcome<AskedFile>>)

  function AskedOf(r: ExportRecord): seq<Outcome<AskedFile>> {
    if r.isFolder then [] else if r.linked == [] then [r.own] else r.linked
  }

  /** One file for each record without linked records, one for each linked record otherwise,
      none for folders. */
  function Asked(records: seq<ExportRecord>): seq<Outcome<AskedFile>> {
    if records == [] then [] else Asked(records[..|records| - 1]) + AskedOf(records[|records| - 1])
  }

  /** What is asked for one record, and that records do not influence each other: nothing for a
      folder, the record itself without linked records, these alone with them. */
  lemma WhatIsAsked(own: Outcome<AskedFile>, linked: seq<Outcome<AskedFile>>)
    ensures Asked([ExportRecord(true, own, linked)]) == []
    ensures Asked([ExportRecord(false, own, [])]) == [own]
    ensures |linked| > 0 ==> Asked([ExportRecord(false, own, linked)]) == linked
  {
    AskedOne(ExportRecord(true, own, linked));
    AskedOne(ExportRecord(false, own, []));
    AskedOne(ExportRecord(false, own, linked));
  }

  lemma AskedOne(r: ExportRecord)
    ensures Asked([r]) == AskedOf(r)
  {
    assert [r][..0] == [];
  }

  lemma {:induction false} AskedConcat(a: seq<ExportRecord>, b: seq<ExportRecord>)
    ensures Asked(a + b) == Asked(a) + Asked(b)
    decreases |b|
  {
    hide AskedOf;
    if b == [] {
      assert a + b == a;
    } else {
      var last := |b| - 1;
      assert (a + b)[..|a + b| - 1] == a + b[..last];
      AskedConcat(a, b[..last]);
    }
  }

  /** The records from one on only add to what is asked for before. */
  lemma {:induction false} AskedSplit(records: seq<ExportRecord>, i: nat) returns (rest: seq<Outcome<AskedFile>>)
    requires i <= |records|
    ensures Asked(records) == Asked(records[..i]) + rest
    decreases |records|
  {
    if i == |records| {
      assert records[..i] == records;
      rest := [];
    } else {
      var front := records[..|records| - 1];
      assert front[..i] == records[..i];
      rest := AskedSplit(front, i);
      rest := rest + AskedOf(records[|records| - 1]);
    }
  }

  /** Files gathered in turn, up to the first panic. */
  method SendFiles(asked: seq<Outcome<AskedFile>>) returns (sent: seq<AskedFile>, panicked: bool)
    ensures sent == Ready(asked) && panicked == !AllReturn(asked)
  {
    assert AllReturn(asked[..0]) && Ready(asked[..0]) == [];
    hide AllReturn, Ready;
    sent, panicked := [], false;
    for k := 0 to |asked|
      invariant AllReturn(asked[..k]) && sent == Ready(asked[..k])
    {
      OneMoreCall(asked, k);
      if !asked[k].Returns? {
        panicked := true;
        return;
      }
      sent := sent + [asked[k].value];
    }
    assert asked[..|asked|] == asked;
  }

  /** What the producer sends before it closes the channel or panics. */
  method Worker(records: seq<ExportRecord>) returns (sent: seq<AskedFile>, panicked: bool)
    ensures sent == Ready(Asked(records)) && panicked == !AllReturn(Asked(records))
  {
    sent, panicked := [], false;
    for i := 0 to |records|
      invariant AllReturn(Asked(records[..i])) && sent == Ready(Asked(records[..i]))
    {
      assert records[..i + 1][..i] == records[..i];
      ReadyConcat(Asked(records[..i]), AskedOf(records[i]));
      var record := records[i];
      if record.isFolder {
        continue;
      }
      var more: seq<AskedFile>;
      if |record.linked| == 0 {
        more, panicked := SendFiles([record.own]);
      } else {
        more, panicked := SendFiles(record.linked);
      }
      sent := sent + more;
      if panicked {
        ghost var rest := AskedSplit(records, i + 1);
        ReadyConcat(Asked(records[..i + 1]), rest);
        return;
      }
    }
    assert records[..|records|] == records;
  }

  /** The producer: it sends the files, and then closes the channel if no file panicked. */
  function ExportScript(asked: seq<Outcome<AskedFile>>): seq<Op<AskedFile>> {
    Sends(Ready(asked)) + [if AllReturn(asked) then Close else Abort]
  }

  lemma {:induction false} SendsStart<T>(items: seq<T>, rest: seq<Op<T>>)
    requires rest != [] && !rest[0].Send?
    ensures StartsWith(Sends(items) + rest, items)
    ensures |Sends(items)| == |items| && (Sends(items) + rest)[|items|] == rest[0]
  {
    if items != [] {
      SendsStart(items[1..], rest);
      var script, shorter := Sends(items) + rest, Sends(items[1..]) + rest;
      assert script == [Send(items[0])] + shorter;
      forall k | 0 <= k < |items| ensures script[k] == Send(items[k]) {
        if k > 0 {
          assert shorter[k - 1] == Send(items[1..][k - 1]);
        }
      }
    }
  }

  /** For any capacity, even one smaller than the number of files, and any interleaving: what
      arrives are the first files, in order.  A run that cannot go on has returned if all
      files can be gathered, with every file delivered through a channel that is closed and
      drained, and has panicked otherwise. */
  lemma ExportDeliversIff(capacity: nat, records: seq<ExportRecord>, run: seq<Action>)
    requires Run(capacity, ExportScript(Asked(records)), run).Some?
    ensures var s, asked := Run(capacity, ExportScript(Asked(records)), run).value, Asked(records);
      && s.received <= Ready(asked)
      && (s.returned ==> AllReturn(asked) && s.received == Ready(asked))
      && (s.returned ==> s.closed && s.queue == [] && s.waitGroup == 0)
      && (Stuck(capacity, s) ==> (s.returned <==> AllReturn(asked)) && (s.crashed <==> !AllReturn(asked)))
  {
    var asked := Asked(records);
    var files, script := Ready(asked), ExportScript(asked);
    var s := Run(capacity, script, run).value;
    if AllReturn(asked) {
      EveryRunDelivers(capacity, files, run);
    } else {
      SendsStart(files, [Abort]);
      OnlyFirstItemsArrive(capacity, files, script, run);
      AbortsNeverReturn(capacity, files, script, run);
    }
  }

  lemma AbortsNeverReturn<T>(capacity: nat, items: seq<T>, script: seq<Op<T>>, run: seq<Action>)
    requires StartsWith(script, items) && |script| == |items| + 1 && script[|items|] == Abort
    requires Run(capacity, script, run).Some?
    ensures var s := Run(capacity, script, run).value;
      !s.returned && (Stuck(capacity, s) ==> s.crashed)
  {
    var s := Run(capacity, script, run).value;
    if s.returned {
      ReturnMeansSendAll(capacity, script, run);
    } else if Stuck(capacity, s) {
      HowRunsEnd(capacity, script, run);
      assert !script[|items|].Send?;
    }
  }

  /** All files can be gathered if and only if the export can return. */
  lemma ExportReturnsIff(capacity: nat, records: seq<ExportRecord>)
    ensures AllReturn(Asked(records))
       <==> exists run :: Run(capacity, ExportScript(Asked(records)), run).Some?
                      && Run(capacity, ExportScript(Asked(records)), run).value.returned
  {
    var script := ExportScript(Asked(records));
    if AllReturn(Asked(records)) {
      assert Run(capacity, script, []).Some?;
      var run := RunsComplete(capacity, Ready(Asked(records)), []);
      assert Run(capacity, script, run).value.returned;
    }
    forall run | Run(capacity, script, run).Some? && Run(capacity, script, run).value.returned
      ensures AllReturn(Asked(records))
    {
      ExportDeliversIff(capacity, records, run);
    }
  }

  // ----- Writing the files

  function Digits(n: nat): (d: string)
    ensures d != [] && ']' !in d
  {
    var last := ["0", "1", "2", "3", "4", "5", "6", "7", "8", "9"][n % 10];
    if n < 10 then last else Digits(n / 10) + last
  }

  function FileName(byId: bool, f: AskedFile): string {
    if byId then "[" + Digits(f.id) + "]" + f.name else f.name
  }

  function Number(d: string): int {
    if d == "" then 0 else 10 * Number(d[..|d| - 1]) + (d[|d| - 1] as int - '0' as int)
  }

  /** The digits spell the number. */
  lemma {:induction false} DigitsSpell(n: nat)
    ensures Number(Digits(n)) == n
  {
    var d := Digits(n);
    var last := ["0", "1", "2", "3", "4", "5", "6", "7", "8", "9"][n % 10];
    assert last[0] as int - '0' as int == n % 10;
    if n < 10 {
      assert d[..0] == "";
    } else {
      DigitsSpell(n / 10);
      assert d[..|d| - 1] == Digits(n / 10);
    }
  }

  /** With the id strategy a file is named by its id in brackets and its name, otherwise by its
      name. */
  lemma FileNameIs(f: AskedFile) returns (digits: string)
    ensures FileName(true, f) == "[" + digits + "]" + f.name && Number(digits) == f.id
    ensures FileName(false, f) == f.name
  {
    digits := Digits(f.id);
    DigitsSpell(f.id);
  }

  /** The files after the first n results have been written.  A file that exists is removed
      before it is written. */
  function Written(byId: bool, before: map<string, seq<byte>>, results: seq<AskedFile>, n: nat): map<string, seq<byte>>
    requires n <= |results|
  {
    if n == 0 then before
    else Written(byId, before, results, n - 1)[FileName(byId, results[n - 1]) := results[n - 1].content]
  }

  method ExportData(byId: bool, before: map<string, seq<byte>>, results: seq<AskedFile>)
    returns (files: map<string, seq<byte>>)
    ensures files == Written(byId, before, results, |results|)
  {
    files := before;
    for i := 0 to |results|
      invariant files == Written(byId, before, results, i)
    {
      var name := FileName(byId, results[i]);
      files := files - {name};
      files := files[name := results[i].content];
    }
  }

  lemma {:induction false} DigitsDiffer(m: nat, n: nat)
    requires Digits(m) == Digits(n)
    ensures m == n
  {
    var a, b := Digits(m), Digits(n);
    LastDigit(m);
    LastDigit(n);
    if m >= 10 && n >= 10 {
      assert a[..|a| - 1] == Digits(m / 10) && b[..|b| - 1] == Digits(n / 10);
      DigitsDiffer(m / 10, n / 10);
    }
  }

  lemma LastDigit(n: nat)
    ensures var d := Digits(n);
      && d[|d| - 1] == "0123456789"[n % 10]
      && (n < 10 <==> |d| == 1)
  {
  }

  /** Where the first bracket stands. */
  lemma FirstBracket(d: string, rest: string, s: string)
    requires s == "[" + d + "]" + rest && ']' !in d
    ensures |s| > 1 + |d| && s[1 + |d|] == ']' && s[1..1 + |d|] == d
    ensures forall i :: 1 <= i < 1 + |d| ==> s[i] != ']'
  {
    assert forall i :: 1 <= i < 1 + |d| ==> s[i] == d[i - 1];
  }

  /** Names that carry the id differ when the ids do, whatever the rest of the name. */
  lemma IdNamesDiffer(a: AskedFile, b: AskedFile)
    requires FileName(true, a) == FileName(true, b)
    ensures a.id == b.id
  {
    var s := FileName(true, a);
    FirstBracket(Digits(a.id), a.name, s);
    FirstBracket(Digits(b.id), b.name, s);
    DigitsDiffer(a.id, b.id);
  }

  /** With the id strategy, files with different ids do not overwrite each other: every file
      is there at the end. */
  lemma {:induction false} NothingOverwritten(before: map<string, seq<byte>>, results: seq<AskedFile>, n: nat, i: nat)
    requires i < n <= |results|
    requires forall a, b :: 0 <= a < b < |results| ==> results[a].id != results[b].id
    ensures var files := Written(true, before, results, n);
      FileName(true, results[i]) in files && files[FileName(true, results[i])] == results[i].content
  {
    hide FileName;
    if i < n - 1 {
      NothingOverwritten(before, results, n - 1, i);
      if FileName(true, results[i]) == FileName(true, results[n - 1]) {
        IdNamesDiffer(results[i], results[n - 1]);
      }
    }
  }

  /** With the other strategy a later file of the same name replaces an earlier one, and
      nothing else does. */
  lemma {:induction false} LastOfNameStays(before: map<string, seq<byte>>, results: seq<AskedFile>, n: nat, i: nat)
    requires i < n <= |results|
    requires forall k :: i < k < n ==> results[k].name != results[i].name
    ensures var files := Written(false, before, results, n);
      results[i].name in files && files[results[i].name] == results[i].content
  {
    if i < n - 1 {
      LastOfNameStays(before, results, n - 1, i);
    }
  }

  // ----- Free space

  // This export has no wait group: it returns when its consumer comes to its end, and the
  // producer may still be running then.  What the machine calls the return of the main
  // thread only says that both threads are done.

  /** A partition: no known volume, one that collects nothing, or NTFS with its bitmap. */
  datatype Partition = Unknown | Silent | Ntfs(status: seq<byte>)

  /** What collecting one partition does with the channel: every NTFS volume closes it, and
      one without free clusters panics. */
  function PartitionScript(p: Partition): seq<Op<Block>> {
    if !p.Ntfs? then []
    else if Free(p.status) == [] then [Abort]
    else SendAll(BlocksSent(p.status))
  }

  function DiskScript(partitions: seq<Partition>): seq<Op<Block>> {
    if partitions == [] then []
    else DiskScript(partitions[..|partitions| - 1]) + PartitionScript(partitions[|partitions| - 1])
  }

  function Volumes(partitions: seq<Partition>): (volumes: seq<Partition>)
    ensures forall i {:trigger volumes[i]} :: 0 <= i < |volumes| ==> volumes[i].Ntfs?
  {
    if partitions == [] then []
    else
      Volumes(partitions[..|partitions| - 1])
      + if partitions[|partitions| - 1].Ntfs? then [partitions[|partitions| - 1]] else []
  }

  /** Exactly one NTFS volume, and it has free clusters. */
  predicate Serves(partitions: seq<Partition>) {
    |Volumes(partitions)| == 1 && Free(Volumes(partitions)[0].status) != []
  }

  function NonSends<T>(script: seq<Op<T>>): nat {
    if script == [] then 0
    else NonSends(script[..|script| - 1]) + if script[|script| - 1].Send? then 0 else 1
  }

  lemma {:induction false} NonSendsConcat<T>(a: seq<Op<T>>, b: seq<Op<T>>)
    ensures NonSends(a + b) == NonSends(a) + NonSends(b)
    decreases |b|
  {
    if b == [] {
      assert a + b == a;
    } else {
      assert (a + b)[..|a + b| - 1] == a + b[..|b| - 1];
      NonSendsConcat(a, b[..|b| - 1]);
    }
  }

  lemma {:induction false} NonSendsOfSends<T>(items: seq<T>)
    ensures NonSends(Sends(items)) == 0
  {
    if items != [] {
      NonSendsOfSends(items[1..]);
      NonSendsConcat([Send(items[0])], Sends(items[1..]));
      assert [Send(items[0])][..0] == [];
    }
  }

  lemma NonSendsOfSendAll<T>(items: seq<T>)
    ensures NonSends(SendAll(items)) == 1
  {
    NonSendsOfSends(items);
    assert SendAll(items)[..|SendAll(items)| - 1] == Sends(items);
  }

  lemma {:induction false} OneEndPerVolume(partitions: seq<Partition>)
    ensures NonSends(DiskScript(partitions)) == |Volumes(partitions)|
  {
    if partitions != [] {
      var front, p := partitions[..|partitions| - 1], partitions[|partitions| - 1];
      OneEndPerVolume(front);
      NonSendsConcat(DiskScript(front), PartitionScript(p));
      if p.Ntfs? && Free(p.status) != [] {
        NonSendsOfSendAll(BlocksSent(p.status));
      } else if p.Ntfs? {
        assert [Op<Block>.Abort][..0] == [];
      }
    }
  }

  lemma {:induction false} OnlyVolumesAct(partitions: seq<Partition>)
    ensures |Volumes(partitions)| == 0 ==> DiskScript(partitions) == []
    ensures |Volumes(partitions)| == 1 ==> DiskScript(partitions) == PartitionScript(Volumes(partitions)[0])
  {
    if partitions != [] {
      OnlyVolumesAct(partitions[..|partitions| - 1]);
    }
  }

  /** The disk that serves: every run delivers the blocks of its one volume, the last block
      excepted, and comes to an end. */
  lemma ServingDiskDelivers(capacity: nat, partitions: seq<Partition>, run: seq<Action>)
    requires Serves(partitions) && Run(capacity, DiskScript(partitions), run).Some?
    ensures var s := Run(capacity, DiskScript(partitions), run).value;
      var blocks := BlocksSent(Volumes(partitions)[0].status);
      && !s.crashed
      && s.received <= blocks
      && (s.returned <==> Stuck(capacity, s))
      && (s.returned ==> s.received == blocks && s.closed && s.queue == [])
  {
    OnlyVolumesAct(partitions);
    EveryRunDelivers(capacity, BlocksSent(Volumes(partitions)[0].status), run);
  }

  lemma SendAllStarts<T>(items: seq<T>, rest: seq<Op<T>>)
    ensures StartsWith(SendAll(items) + rest, items) && (SendAll(items) + rest)[|items|] == Close
  {
    SendsStart(items, [Close] + rest);
    assert SendAll(items) + rest == Sends(items) + ([Close] + rest);
  }

  /** The script begins with the first volume that there is. */
  lemma {:induction false} FirstVolumeFirst(partitions: seq<Partition>) returns (rest: seq<Op<Block>>)
    requires Volumes(partitions) != []
    ensures DiskScript(partitions) == PartitionScript(Volumes(partitions)[0]) + rest
  {
    var front := partitions[..|partitions| - 1];
    if Volumes(front) == [] {
      OnlyVolumesAct(front);
      rest := [];
    } else {
      rest := FirstVolumeFirst(front);
      rest := rest + PartitionScript(partitions[|partitions| - 1]);
    }
  }

  lemma FirstVolumeStarts(partitions: seq<Partition>)
    requires FirstHasFree(partitions)
    ensures var script, blocks := DiskScript(partitions), BlocksSent(Volumes(partitions)[0].status);
      StartsWith(script, blocks) && script[|blocks|] == Close
  {
    var rest := FirstVolumeFirst(partitions);
    hide Free, BlocksSent;
    SendAllStarts(BlocksSent(Volumes(partitions)[0].status), rest);
  }

  /** Whatever else is on the disk, the export receives blocks of the first NTFS volume only,
      and all blocks that this one sends if the channel is seen to be closed. */
  lemma OnlyFirstVolumeArrives(capacity: nat, partitions: seq<Partition>, run: seq<Action>)
    requires FirstHasFree(partitions)
    requires Run(capacity, DiskScript(partitions), run).Some?
    ensures var s := Run(capacity, DiskScript(partitions), run).value;
      var blocks := BlocksSent(Volumes(partitions)[0].status);
      s.received <= blocks && (!s.consuming ==> s.received == blocks)
  {
    FirstVolumeStarts(partitions);
    OnlyFirstItemsArrive(capacity, BlocksSent(Volumes(partitions)[0].status), DiskScript(partitions), run);
  }

  // ----- When the export returns, and when the producer panics

  /** There is an NTFS volume, and the first one has free clusters. */
  predicate FirstHasFree(partitions: seq<Partition>) {
    Volumes(partitions) != [] && Free(Volumes(partitions)[0].status) != []
  }

  /** The export returns when its consumer does; nobody waits for the producer. */
  ghost predicate CanReturn(capacity: nat, partitions: seq<Partition>) {
    exists run :: Run(capacity, DiskScript(partitions), run).Some?
               && !Run(capacity, DiskScript(partitions), run).value.consuming
  }

  lemma EmptyVolumeAborts(partitions: seq<Partition>)
    requires Volumes(partitions) != []
    ensures Free(Volumes(partitions)[0].status) == [] ==>
      DiskScript(partitions) != [] && DiskScript(partitions)[0] == Abort
  {
    var rest := FirstVolumeFirst(partitions);
  }

  lemma ReturnMeansFirstHasFree(capacity: nat, partitions: seq<Partition>, run: seq<Action>)
    requires Run(capacity, DiskScript(partitions), run).Some?
    requires !Run(capacity, DiskScript(partitions), run).value.consuming
    ensures FirstHasFree(partitions)
  {
    var done := RunFollows(capacity, DiskScript(partitions), run);
    if Volumes(partitions) == [] {
      OnlyVolumesAct(partitions);
    } else {
      EmptyVolumeAborts(partitions);
    }
  }

  /** The export can return if and only if there is an NTFS volume and the first one has
      free clusters. */
  lemma CanReturnIff(capacity: nat, partitions: seq<Partition>)
    ensures CanReturn(capacity, partitions) <==> FirstHasFree(partitions)
  {
    if FirstHasFree(partitions) {
      FirstVolumeStarts(partitions);
      var run := ConsumerCanEndFirst(capacity, BlocksSent(Volumes(partitions)[0].status), DiskScript(partitions));
    }
    if CanReturn(capacity, partitions) {
      var run :| Run(capacity, DiskScript(partitions), run).Some?
                 && !Run(capacity, DiskScript(partitions), run).value.consuming;
      ReturnMeansFirstHasFree(capacity, partitions, run);
    }
  }

  /** The producer can come to its end without a panic. */
  ghost predicate ProducerCanEnd(capacity: nat, partitions: seq<Partition>) {
    exists run :: Run(capacity, DiskScript(partitions), run).Some?
               && !Run(capacity, DiskScript(partitions), run).value.producing
               && !Run(capacity, DiskScript(partitions), run).value.crashed
  }

  lemma ProducerEndMeans(capacity: nat, partitions: seq<Partition>, run: seq<Action>)
    requires Run(capacity, DiskScript(partitions), run).Some?
    requires !Run(capacity, DiskScript(partitions), run).value.producing
    requires !Run(capacity, DiskScript(partitions), run).value.crashed
    ensures Volumes(partitions) == [] || Serves(partitions)
  {
    hide Run, DiskScript, Free, BlocksSent;
    var script := DiskScript(partitions);
    var done := RunFollows(capacity, script, run);
    OneEndPerVolume(partitions);
    if Run(capacity, script, run).value.closed {
      OnlySends(script[..|script| - 1]);
      OnlyVolumesAct(partitions);
      assert script[|script| - 1] == Close;
      assert PartitionScript(Volumes(partitions)[0]) == script;
    } else {
      OnlySends(script);
    }
  }

  /** The producer can come to its end without a panic if and only if there is at most one
      NTFS volume, and that one has free clusters. */
  lemma ProducerCanEndIff(capacity: nat, partitions: seq<Partition>)
    ensures ProducerCanEnd(capacity, partitions) <==> Volumes(partitions) == [] || Serves(partitions)
  {
    var script := DiskScript(partitions);
    if Volumes(partitions) == [] {
      OnlyVolumesAct(partitions);
      RunOneMore(capacity, script, [], LeaveProducer);
    } else if Serves(partitions) {
      OnlyVolumesAct(partitions);
      assert Run(capacity, script, []).Some?;
      var run := RunsComplete(capacity, BlocksSent(Volumes(partitions)[0].status), []);
      var done := RunFollows(capacity, script, run);
    }
    if ProducerCanEnd(capacity, partitions) {
      var run :| Run(capacity, script, run).Some?
                 && !Run(capacity, script, run).value.producing && !Run(capacity, script, run).value.crashed;
      ProducerEndMeans(capacity, partitions, run);
    }
  }

  /** With a second NTFS volume the scheduling decides: the export can return with the
      producer still at work, and the producer can panic before the export returns. */
  lemma SecondVolumeRaces(capacity: nat, partitions: seq<Partition>)
    returns (returning: seq<Action>, panicking: seq<Action>)
    requires FirstHasFree(partitions) && |Volumes(partitions)| >= 2
    ensures Run(capacity, DiskScript(partitions), returning).Some?
    ensures var s := Run(capacity, DiskScript(partitions), returning).value; !s.consuming && s.producing && !s.crashed
    ensures Run(capacity, DiskScript(partitions), panicking).Some?
    ensures var s := Run(capacity, DiskScript(partitions), panicking).value; s.consuming && s.crashed
  {
    hide Run, DiskScript, Free, BlocksSent;
    var script, blocks := DiskScript(partitions), BlocksSent(Volumes(partitions)[0].status);
    FirstVolumeStarts(partitions);
    OneEndPerVolume(partitions);
    if |script| == |blocks| + 1 {
      OnlySends(script[..|blocks|]);
    }
    returning := ConsumerCanEndFirst(capacity, blocks, script);
    panicking := ProducerCanPanicFirst(capacity, blocks, script);
  }

  lemma {:induction false} OnlySends<T>(script: seq<Op<T>>)
    requires forall k :: 0 <= k < |script| ==> script[k].Send?
    ensures NonSends(script) == 0
  {
    if script != [] {
      OnlySends(script[..|script| - 1]);
    }
  }

  /** If the program lives on until no thread can move: both are done, on a disk that serves;
      the consumer is left waiting, on a disk without an NTFS volume, which the Go runtime ends
      as a deadlock; or the producer has panicked, on every other disk. */
  lemma HowThreadsEnd(capacity: nat, partitions: seq<Partition>, run: seq<Action>)
    requires Run(capacity, DiskScript(partitions), run).Some?
    requires Stuck(capacity, Run(capacity, DiskScript(partitions), run).value)
    ensures var s := Run(capacity, DiskScript(partitions), run).value;
      && (!s.crashed && !s.consuming && !s.producing <==> Serves(partitions))
      && (s.crashed <==> Volumes(partitions) != [] && !Serves(partitions))
      && (Volumes(partitions) == [] ==> s.consuming)
  {
    var script := DiskScript(partitions);
    var s := Run(capacity, script, run).value;
    HowRunsEnd(capacity, script, run);
    OneEndPerVolume(partitions);
    var done := RunFollows(capacity, script, run);
    if Serves(partitions) {
      ServingDiskDelivers(capacity, partitions, run);
    } else if Volumes(partitions) == [] {
      OnlyVolumesAct(partitions);
      NothingCrashes(capacity, run);
    } else if !s.crashed {
      if s.returned {
        ProducerEndMeans(capacity, partitions, run);
      } else {
        OnlySends(script);
      }
    }
  }

  lemma {:induction false} NothingCrashes(capacity: nat, run: seq<Action>)
    requires Run<Block>(capacity, [], run).Some?
    ensures var s := Run<Block>(capacity, [], run).value;
      !s.crashed && s.consuming && !s.closed && s.script == [] && s.queue == []
      && s.waitGroup == (if s.producing then 2 else 1)
      && !s.returned
    decreases |run|
  {
    if run != [] {
      NothingCrashes(capacity, run[..|run| - 1]);
    }
  }

  // ----- Three small disks

  /** Two volumes with one free cluster each: the export can return, but the producer cannot
      come to its end without a panic. */
  lemma TwoSmallVolumes(capacity: nat)
    ensures var disk := [Ntfs([0xfe]), Ntfs([0xfe])];
      CanReturn(capacity, disk) && !ProducerCanEnd(capacity, disk)
  {
    var disk := [Ntfs([0xfe]), Ntfs([0xfe])];
    OneFree();
    assert Volumes(disk[..1]) == [Ntfs([0xfe])] by {
      assert Volumes(disk[..1][..0]) == [];
    }
    assert disk[..|disk| - 1] == disk[..1];
    assert Volumes(disk) == disk;
    CanReturnIff(capacity, disk);
    ProducerCanEndIff(capacity, disk);
  }

  /** One volume without a free cluster: the export cannot return. */
  lemma FullVolume(capacity: nat)
    ensures !CanReturn(capacity, [Ntfs([0xff])])
  {
    var disk := [Ntfs([0xff])];
    FullByte();
    assert Volumes(disk[..0]) == [];
    assert Volumes(disk) == disk;
    CanReturnIff(capacity, disk);
  }

  /** No NTFS volume: the producer ends, and the export cannot return. */
  lemma NoVolume(capacity: nat)
    ensures !CanReturn(capacity, [Silent]) && ProducerCanEnd(capacity, [Silent])
  {
    var disk := [Silent];
    assert Volumes(disk[..0]) == [];
    assert Volumes(disk) == [];
    CanReturnIff(capacity, disk);
    ProducerCanEndIff(capacity, disk);
  }
}

/** The USN journal pipeline: a worker sends data fragments over a bounded channel, a parser
    cuts them into records and offers these one by one over an unbuffered channel, and a
    collector gathers them and waits for both, as interleaved atomic steps. */
module UsnPipeline {
  import opened Machine
  import opened LittleEndian
  import opened Outcomes

  // ----- Framing

  /** A fragment as a Go slice: the bytes up to its capacity, and its length. */
  datatype Raw = Raw(bytes: seq<byte>, len: nat)

  type Fragment = f: Raw | f.len <= |f.bytes| witness Raw([], 0)

  /** A journal record, kept as the bytes of its frame. */
  type Record = seq<byte>

  datatype Frame = Short | Beyond | Framed(end: nat, record: Record, named: bool)

  const HEADER: nat := 60
  const FIELDS: nat := 62

  /** The record that starts at offset.  Reading the fields takes 62 bytes, although only 60
      are checked for, and panics where the capacity ends earlier.  The frame is as long as
      the name length at bytes 58-59 says; records without an entry, bytes 8-15, are not
      passed on. */
  function FrameAt(f: Fragment, offset: nat): (frame: Frame)
    requires offset <= f.len
    ensures frame.Framed? ==> offset < frame.end <= f.len
  {
    if f.len - offset < HEADER then Short
    else if offset + FIELDS > |f.bytes| then Beyond
    else
      var end := offset + HEADER + 2 * Unsigned(f.bytes[offset + 58..offset + 60]);
      if end > f.len then Short
      else Framed(end, f.bytes[offset..end], Unsigned(f.bytes[offset + 8..offset + 16]) != 0)
  }

  /** Records in order, and whether parsing them ended in a panic. */
  datatype Parsed = Parsed(records: seq<Record>, panics: bool)

  function Then(a: Parsed, b: Parsed): Parsed {
    if a.panics then a else Parsed(a.records + b.records, b.panics)
  }

  /** A sequential parse of one fragment, from offset on. */
  function ParseFrom(f: Fragment, offset: nat): Parsed
    requires offset <= f.len
    decreases f.len - offset
  {
    match FrameAt(f, offset)
    case Short => Parsed([], false)
    case Beyond => Parsed([], true)
    case Framed(end, record, named) =>
      var rest := ParseFrom(f, end);
      if named then Parsed([record] + rest.records, rest.panics) else rest
  }

  /** A sequential parse of all fragments. */
  function ParseAll(fragments: seq<Fragment>): Parsed {
    if fragments == [] then Parsed([], false) else Then(ParseFrom(fragments[0], 0), ParseAll(fragments[1..]))
  }

  // ----- When parsing panics

  /** The place where the last record starts, whole or not. */
  function LastStart(f: Fragment, offset: nat): (last: nat)
    requires offset <= f.len
    ensures offset <= last <= f.len
    decreases f.len - offset
  {
    if f.len - offset < HEADER || offset + FIELDS > |f.bytes| then offset
    else
      var end := offset + HEADER + 2 * Unsigned(f.bytes[offset + 58..offset + 60]);
      if end > f.len then offset else LastStart(f, end)
  }

  /** Where the last record starts, 60 bytes are left in the fragment but no 62 in its
      capacity. */
  predicate CutShort(f: Fragment, offset: nat)
    requires offset <= f.len
  {
    f.len - LastStart(f, offset) >= HEADER && LastStart(f, offset) + FIELDS > |f.bytes|
  }

  /** A fragment makes the parser panic if and only if its last record is cut short. */
  lemma {:induction false} ParsePanicsIff(f: Fragment, offset: nat)
    requires offset <= f.len
    ensures ParseFrom(f, offset).panics <==> CutShort(f, offset)
    decreases f.len - offset
  {
    if FrameAt(f, offset).Framed? {
      ParsePanicsIff(f, FrameAt(f, offset).end);
    }
  }

  /** Two bytes of capacity behind the fragment are enough. */
  lemma SpareCapacityIsSafe(f: Fragment)
    requires f.len + 2 <= |f.bytes|
    ensures !ParseFrom(f, 0).panics
  {
    ParsePanicsIff(f, 0);
  }

  /** And so for all fragments: one that is cut short is all it takes. */
  lemma {:induction false} ParseAllPanicsIff(fragments: seq<Fragment>)
    ensures ParseAll(fragments).panics <==> exists i :: 0 <= i < |fragments| && CutShort(fragments[i], 0)
    decreases |fragments|
  {
    if fragments != [] {
      ParsePanicsIff(fragments[0], 0);
      ParseAllPanicsIff(fragments[1..]);
      forall i | 0 < i < |fragments| ensures fragments[1..][i - 1] == fragments[i] {
      }
      if i :| 0 <= i < |fragments| && CutShort(fragments[i], 0) && i > 0 {
        assert CutShort(fragments[1..][i - 1], 0);
      }
    }
  }

  /** A fragment of 60 or 61 bytes, whatever they are, panics if its capacity ends with it. */
  lemma ShortFragmentPanics(bytes: seq<byte>)
    requires 60 <= |bytes| <= 61
    ensures ParseFrom(Raw(bytes, |bytes|), 0) == Parsed([], true)
  {
  }

  // ----- What the worker supplies

  /** The fragments that the worker sends, and whether gathering the next one panics. */
  datatype Supply = Supply(fragments: seq<Fragment>, panics: bool)

  function Flat(parts: seq<seq<Fragment>>): seq<Fragment> {
    if parts == [] then [] else Flat(parts[..|parts| - 1]) + parts[|parts| - 1]
  }

  /** The fragments of the record itself or those of its linked records, none for a folder, up
      to the first record that panics. */
  function SupplyOf(isFolder: bool, own: Outcome<seq<Fragment>>, linked: seq<Outcome<seq<Fragment>>>): Supply {
    var parts := if isFolder then [] else if linked == [] then [own] else linked;
    Supply(Flat(Ready(parts)), !AllReturn(parts))
  }

  /** Nothing for a folder, the record itself without linked records, these in order with them;
      and nothing behind the first that panics. */
  lemma WhatIsSupplied(own: Outcome<seq<Fragment>>, a: seq<Fragment>, b: seq<Fragment>,
                       linked: seq<Outcome<seq<Fragment>>>)
    ensures SupplyOf(true, own, linked) == Supply([], false)
    ensures SupplyOf(false, Returns(a), []) == Supply(a, false)
    ensures SupplyOf(false, Panics, []) == Supply([], true)
    ensures SupplyOf(false, own, [Returns(a), Returns(b)]) == Supply(a + b, false)
    ensures SupplyOf(false, own, [Returns(a), Panics] + linked) == Supply(a, true)
  {
    FlatTwo(a, b);
    ReadyFirst(Returns(a), []);
    ReadyFirst(Returns(b), []);
    ReadyFirst(Returns(a), [Returns(b)]);
    assert [Returns(a), Panics] + linked == [Returns(a)] + ([Panics] + linked);
    ReadyFirst(Returns(a), [Panics] + linked);
    assert ([Returns(a), Panics] + linked)[1].Panics?;
  }

  lemma ReadyFirst(first: Outcome<seq<Fragment>>, rest: seq<Outcome<seq<Fragment>>>)
    requires first.Returns?
    ensures Ready([first] + rest) == [first.value] + Ready(rest)
  {
    assert ([first] + rest)[1..] == rest;
  }

  lemma FlatTwo(a: seq<Fragment>, b: seq<Fragment>)
    ensures Flat([]) == [] && Flat([a]) == a && Flat([a, b]) == a + b
  {
    assert [a][..0] == [] && [a, b][..1] == [a];
    assert [] + a == a;
  }

  method SendParts(parts: seq<Outcome<seq<Fragment>>>) returns (supply: Supply)
    ensures supply == Supply(Flat(Ready(parts)), !AllReturn(parts))
  {
    assert AllReturn(parts[..0]) && Ready(parts[..0]) == [];
    hide AllReturn, Ready;
    var sent: seq<Fragment> := [];
    for k := 0 to |parts|
      invariant AllReturn(parts[..k]) && sent == Flat(Ready(parts[..k]))
    {
      OneMoreCall(parts, k);
      if !parts[k].Returns? {
        return Supply(sent, true);
      }
      ghost var more := Ready(parts[..k]) + [parts[k].value];
      assert more[..|more| - 1] == Ready(parts[..k]);
      sent := sent + parts[k].value;
    }
    assert parts[..|parts|] == parts;
    supply := Supply(sent, false);
  }

  method AsyncWorker(isFolder: bool, own: Outcome<seq<Fragment>>, linked: seq<Outcome<seq<Fragment>>>)
    returns (supply: Supply)
    ensures supply == SupplyOf(isFolder, own, linked)
  {
    if isFolder {
      return Supply([], false);
    }
    if |linked| == 0 {
      supply := SendParts([own]);
    } else {
      supply := SendParts(linked);
    }
  }

  // ----- The machine

  /** The worker closes the channel after its last fragment, or panics. */
  datatype Worker = Sending(todo: seq<Fragment>, fails: bool) | WorkerLeaving | WorkerGone

  datatype Parser = Idle | Parsing(f: Fragment, offset: nat) | Offering(record: Record, f: Fragment, offset: nat)
    | ParserLeaving | ParserGone

  datatype Collector = Ranging | Waiting | Returned

  datatype Crash = NoPanic | ParsePanic | WorkerPanic | ChannelPanic

  datatype State = State(
    worker: Worker,
    queue: seq<Fragment>, queueClosed: bool,
    parser: Parser,
    recordsClosed: bool,
    collector: Collector,
    collected: seq<Record>,
    waitGroup: int,
    crash: Crash)

  datatype Action = WorkerSends | WorkerHandsOver | WorkerCloses | WorkerLeaves
    | ParserReceives | ParserAdvances | ParserCloses | ParserLeaves
    | CollectorReceives | CollectorEnds | CollectorReturns

  function Init(supply: Supply): State {
    State(Sending(supply.fragments, supply.panics), [], false, Idle, false, Ranging, [], 2, NoPanic)
  }

  function Leave(s: State): State {
    s.(waitGroup := s.waitGroup - 1, crash := if s.waitGroup < 1 then ChannelPanic else s.crash)
  }

  /** The state after an action, or none where the action has to wait.  Sending on a closed
      channel and closing it again panic. */
  function Step(capacity: nat, s: State, a: Action): Option<State> {
    if s.crash != NoPanic || s.collector.Returned? then None
    else
      match a
      case WorkerSends =>
        if !s.worker.Sending? || s.worker.todo == [] then None
        else if s.queueClosed then Some(s.(crash := ChannelPanic))
        else if |s.queue| < capacity then
          Some(s.(worker := Sending(s.worker.todo[1..], s.worker.fails), queue := s.queue + [s.worker.todo[0]]))
        else None
      case WorkerHandsOver =>
        if s.worker.Sending? && s.worker.todo != [] && !s.queueClosed && s.queue == [] && s.parser.Idle? then
          Some(s.(worker := Sending(s.worker.todo[1..], s.worker.fails), parser := Parsing(s.worker.todo[0], 0)))
        else None
      case WorkerCloses =>
        if !s.worker.Sending? || s.worker.todo != [] then None
        else if s.worker.fails then Some(s.(crash := WorkerPanic))
        else if s.queueClosed then Some(s.(crash := ChannelPanic))
        else Some(s.(worker := WorkerLeaving, queueClosed := true))
      case WorkerLeaves =>
        if s.worker.WorkerLeaving? then Some(Leave(s.(worker := WorkerGone))) else None
      case ParserReceives =>
        if s.parser.Idle? && s.queue != [] then
          Some(s.(parser := Parsing(s.queue[0], 0), queue := s.queue[1..]))
        else None
      case ParserAdvances =>
        if !s.parser.Parsing? || s.parser.offset > s.parser.f.len then None
        else if s.parser.offset == s.parser.f.len then Some(s.(parser := Idle))
        else
          (match FrameAt(s.parser.f, s.parser.offset)
           case Short => Some(s.(parser := Idle))
           case Beyond => Some(s.(crash := ParsePanic))
           case Framed(end, record, named) =>
             if named then Some(s.(parser := Offering(record, s.parser.f, end)))
             else Some(s.(parser := Parsing(s.parser.f, end))))
      case ParserCloses =>
        if s.parser.Idle? && s.queue == [] && s.queueClosed then
          if s.recordsClosed then Some(s.(crash := ChannelPanic))
          else Some(s.(parser := ParserLeaving, recordsClosed := true))
        else None
      case ParserLeaves =>
        if s.parser.ParserLeaving? then Some(Leave(s.(parser := ParserGone))) else None
      case CollectorReceives =>
        if !s.parser.Offering? then None
        else if s.recordsClosed then Some(s.(crash := ChannelPanic))
        else if s.collector.Ranging? then
          Some(s.(collected := s.collected + [s.parser.record], parser := Parsing(s.parser.f, s.parser.offset)))
        else None
      case CollectorEnds =>
        if s.collector.Ranging? && s.recordsClosed then Some(s.(collector := Waiting)) else None
      case CollectorReturns =>
        if s.collector.Waiting? && s.waitGroup == 0 then Some(s.(collector := Returned)) else None
  }

  /** The state after a run, or none where some action of it would have had to wait. */
  function Run(capacity: nat, supply: Supply, run: seq<Action>): Option<State> {
    if run == [] then Some(Init(supply))
    else
      var before := Run(capacity, supply, run[..|run| - 1]);
      if before.Some? then Step(capacity, before.value, run[|run| - 1]) else None
  }

  /** What it means that a state is free of such panics: with its channel closed, a thread that
      can send or close does panic. */
  lemma ClosedChannelsPanic(capacity: nat, s: State)
    requires s.crash == NoPanic && !s.collector.Returned?
    ensures s.queueClosed && s.worker.Sending? && (s.worker.todo != [] || !s.worker.fails) ==>
      Step(capacity, s, if s.worker.todo != [] then WorkerSends else WorkerCloses) == Some(s.(crash := ChannelPanic))
    ensures s.recordsClosed && s.parser.Offering? ==>
      Step(capacity, s, CollectorReceives) == Some(s.(crash := ChannelPanic))
    ensures s.recordsClosed && s.parser.Idle? && s.queue == [] && s.queueClosed ==>
      Step(capacity, s, ParserCloses) == Some(s.(crash := ChannelPanic))
  {
  }

  // ----- What every step keeps

  /** What a sequential parse would still produce from what is in flight. */
  function Pending(s: State): Parsed {
    Then(InParser(s.parser), Then(ParseAll(s.queue), ParseAll(Todo(s.worker))))
  }

  function Todo(w: Worker): seq<Fragment> {
    if w.Sending? then w.todo else []
  }

  function InParser(p: Parser): Parsed {
    match p
    case Parsing(f, offset) => if offset <= f.len then ParseFrom(f, offset) else Parsed([], false)
    case Offering(record, f, offset) =>
      if offset <= f.len then Then(Parsed([record], false), ParseFrom(f, offset)) else Parsed([record], false)
    case _ => Parsed([], false)
  }

  /** Each thread counts in the wait group until it leaves. */
  function Present(s: State): nat {
    (if s.worker.WorkerGone? then 0 else 1) + (if s.parser.ParserGone? then 0 else 1)
  }

  /** The discipline of the channels and the wait group. */
  ghost predicate Orderly(s: State) {
    && s.crash != ChannelPanic
    && s.waitGroup == Present(s)
    && (s.queueClosed <==> !s.worker.Sending?)
    && (s.recordsClosed <==> s.parser.ParserLeaving? || s.parser.ParserGone?)
    && (s.recordsClosed ==> s.queueClosed && s.queue == [])
    && (!s.collector.Ranging? ==> s.recordsClosed)
    && (s.collector.Returned? ==> s.waitGroup == 0 && s.crash == NoPanic)
    && (s.parser.Parsing? || s.parser.Offering? ==> s.parser.offset <= s.parser.f.len)
  }

  /** What has been collected, followed by what is in flight, is what a sequential parse
      yields. */
  ghost predicate Conserves(fragments: seq<Fragment>, s: State) {
    if s.crash != ParsePanic then Then(Parsed(s.collected, false), Pending(s)) == ParseAll(fragments)
    else ParseAll(fragments) == Parsed(s.collected, true)
  }

  /** A worker that is going to panic does so instead of closing the channel. */
  ghost predicate Faithful(supply: Supply, s: State) {
    && (s.worker.Sending? ==> s.worker.fails == supply.panics)
    && (!s.worker.Sending? ==> !supply.panics)
    && (s.crash == WorkerPanic ==> supply.panics)
  }

  lemma StepKeepsOrder(capacity: nat, s: State, a: Action)
    requires Orderly(s) && Step(capacity, s, a).Some?
    ensures Orderly(Step(capacity, s, a).value)
  {
  }

  lemma ThenAssoc(a: Parsed, b: Parsed, c: Parsed)
    ensures Then(Then(a, b), c) == Then(a, Then(b, c))
  {
    if !a.panics && !b.panics {
      assert a.records + b.records + c.records == a.records + (b.records + c.records);
    }
  }

  lemma ThenNothing(a: Parsed)
    ensures Then(a, Parsed([], false)) == a && Then(Parsed([], false), a) == a
  {
    assert a.records + [] == a.records && [] + a.records == a.records;
  }

  lemma {:induction false} ParseAllSnoc(fragments: seq<Fragment>, f: Fragment)
    ensures ParseAll(fragments + [f]) == Then(ParseAll(fragments), ParseFrom(f, 0))
  {
    if fragments == [] {
      assert ([] + [f])[1..] == [];
      ThenNothing(ParseFrom(f, 0));
    } else {
      assert (fragments + [f])[1..] == fragments[1..] + [f];
      ParseAllSnoc(fragments[1..], f);
      ThenAssoc(ParseFrom(fragments[0], 0), ParseAll(fragments[1..]), ParseFrom(f, 0));
    }
  }

  /** One frame further, the parser holds the same records. */
  lemma AdvanceKeeps(f: Fragment, offset: nat)
    requires offset <= f.len
    ensures match FrameAt(f, offset)
      case Short => ParseFrom(f, offset) == Parsed([], false)
      case Beyond => ParseFrom(f, offset) == Parsed([], true)
      case Framed(end, record, named) =>
        ParseFrom(f, offset) == if named then InParser(Offering(record, f, end)) else InParser(Parsing(f, end))
  {
  }

  lemma SendConserves(capacity: nat, fragments: seq<Fragment>, s: State)
    requires Orderly(s) && Conserves(fragments, s) && Step(capacity, s, WorkerSends).Some?
    ensures Conserves(fragments, Step(capacity, s, WorkerSends).value)
  {
    ParseAllSnoc(s.queue, s.worker.todo[0]);
    ThenAssoc(ParseAll(s.queue), ParseFrom(s.worker.todo[0], 0), ParseAll(s.worker.todo[1..]));
  }

  lemma HandOverConserves(capacity: nat, fragments: seq<Fragment>, s: State)
    requires Orderly(s) && Conserves(fragments, s) && Step(capacity, s, WorkerHandsOver).Some?
    ensures Conserves(fragments, Step(capacity, s, WorkerHandsOver).value)
  {
    ThenNothing(ParseAll(s.worker.todo));
    ThenNothing(Then(ParseAll(s.queue), ParseAll(s.worker.todo)));
    ThenNothing(ParseAll(s.worker.todo[1..]));
  }

  lemma ReceiveConserves(capacity: nat, fragments: seq<Fragment>, s: State)
    requires Orderly(s) && Conserves(fragments, s) && Step(capacity, s, ParserReceives).Some?
    ensures Conserves(fragments, Step(capacity, s, ParserReceives).value)
  {
    ThenNothing(Then(ParseAll(s.queue), ParseAll(Todo(s.worker))));
    ThenAssoc(ParseFrom(s.queue[0], 0), ParseAll(s.queue[1..]), ParseAll(Todo(s.worker)));
  }

  lemma AdvanceConserves(capacity: nat, fragments: seq<Fragment>, s: State)
    requires Orderly(s) && Conserves(fragments, s) && Step(capacity, s, ParserAdvances).Some?
    ensures Conserves(fragments, Step(capacity, s, ParserAdvances).value)
  {
    AdvanceKeeps(s.parser.f, s.parser.offset);
    ThenNothing(Parsed(s.collected, false));
    assert s.collected + [] == s.collected;
  }

  lemma CollectConserves(capacity: nat, fragments: seq<Fragment>, s: State)
    requires Orderly(s) && Conserves(fragments, s) && Step(capacity, s, CollectorReceives).Some?
    ensures Conserves(fragments, Step(capacity, s, CollectorReceives).value)
  {
    var rest := Then(ParseAll(s.queue), ParseAll(Todo(s.worker)));
    var one := Parsed([s.parser.record], false);
    var more := ParseFrom(s.parser.f, s.parser.offset);
    ThenAssoc(one, more, rest);
    ThenAssoc(Parsed(s.collected, false), one, Then(more, rest));
  }

  lemma StepConserves(capacity: nat, fragments: seq<Fragment>, s: State, a: Action)
    requires Orderly(s) && Conserves(fragments, s) && Step(capacity, s, a).Some?
    ensures Conserves(fragments, Step(capacity, s, a).value)
  {
    hide ParseFrom, ParseAll;
    match a
    case WorkerSends =>
      SendConserves(capacity, fragments, s);
    case WorkerHandsOver =>
      HandOverConserves(capacity, fragments, s);
    case ParserReceives =>
      ReceiveConserves(capacity, fragments, s);
    case ParserAdvances =>
      AdvanceConserves(capacity, fragments, s);
    case CollectorReceives =>
      CollectConserves(capacity, fragments, s);
    case _ =>
  }

  ghost predicate Inv(supply: Supply, s: State) {
    Orderly(s) && Conserves(supply.fragments, s) && Faithful(supply, s)
  }

  lemma StepIsFaithful(capacity: nat, supply: Supply, s: State, a: Action)
    requires Orderly(s) && Faithful(supply, s) && Step(capacity, s, a).Some?
    ensures Faithful(supply, Step(capacity, s, a).value)
  {
  }

  lemma {:induction false} RunKeepsInv(capacity: nat, supply: Supply, run: seq<Action>)
    requires Run(capacity, supply, run).Some?
    ensures Inv(supply, Run(capacity, supply, run).value)
    decreases |run|
  {
    if run == [] {
      ThenNothing(ParseAll(supply.fragments));
    } else {
      hide Orderly, Conserves, Faithful, Step;
      var front, a := run[..|run| - 1], run[|run| - 1];
      var s := Run(capacity, supply, front).value;
      RunKeepsInv(capacity, supply, front);
      StepKeepsOrder(capacity, s, a);
      StepConserves(capacity, supply.fragments, s, a);
      StepIsFaithful(capacity, supply, s, a);
    }
  }

  /** The buffer never holds more fragments than the capacity of the channel. */
  lemma {:induction false} QueueIsBounded(capacity: nat, supply: Supply, run: seq<Action>)
    requires Run(capacity, supply, run).Some?
    ensures |Run(capacity, supply, run).value.queue| <= capacity
    decreases |run|
  {
    if run != [] {
      hide FrameAt;
      QueueIsBounded(capacity, supply, run[..|run| - 1]);
    }
  }

  // ----- Progress

  /** No deadlock: unless it has crashed or returned, some thread can move. */
  lemma SomeoneMoves(capacity: nat, s: State)
    requires Orderly(s) && s.crash == NoPanic && !s.collector.Returned?
    ensures exists a :: Step(capacity, s, a).Some?
  {
    if s.parser.Parsing? {
      assert Step(capacity, s, ParserAdvances).Some?;
    } else if s.parser.Offering? {
      assert Step(capacity, s, CollectorReceives).Some?;
    } else if s.parser.ParserLeaving? {
      assert Step(capacity, s, ParserLeaves).Some?;
    } else if s.worker.WorkerLeaving? {
      assert Step(capacity, s, WorkerLeaves).Some?;
    } else if s.parser.Idle? {
      if s.queue != [] {
        assert Step(capacity, s, ParserReceives).Some?;
      } else if s.worker.WorkerGone? {
        assert Step(capacity, s, ParserCloses).Some?;
      } else if s.worker.todo != [] {
        assert Step(capacity, s, WorkerHandsOver).Some?;
      } else {
        assert Step(capacity, s, WorkerCloses).Some?;
      }
    } else if s.collector.Ranging? {
      assert Step(capacity, s, CollectorEnds).Some?;
    } else {
      assert Step(capacity, s, CollectorReturns).Some?;
    }
  }

  function Weight(fragments: seq<Fragment>, each: nat): nat {
    if fragments == [] then 0
    else Weight(fragments[..|fragments| - 1], each) + 2 * fragments[|fragments| - 1].len + each
  }

  lemma {:induction false} WeightConcat(a: seq<Fragment>, b: seq<Fragment>, each: nat)
    ensures Weight(a + b, each) == Weight(a, each) + Weight(b, each)
    decreases |b|
  {
    if b == [] {
      assert a + b == a;
    } else {
      assert (a + b)[..|a + b| - 1] == a + b[..|b| - 1];
      WeightConcat(a, b[..|b| - 1], each);
    }
  }

  lemma WeightFirst(fragments: seq<Fragment>, each: nat)
    requires fragments != []
    ensures Weight(fragments, each) == 2 * fragments[0].len + each + Weight(fragments[1..], each)
  {
    assert fragments == [fragments[0]] + fragments[1..];
    WeightConcat([fragments[0]], fragments[1..], each);
    assert [fragments[0]][..0] == [];
  }

  function Rest(f: Fragment, offset: nat): nat {
    if offset <= f.len then 2 * (f.len - offset) else 0
  }

  function ParserWeight(p: Parser): nat {
    match p
    case Idle => 3
    case Parsing(f, offset) => 4 + Rest(f, offset)
    case Offering(_, f, offset) => 5 + Rest(f, offset)
    case ParserLeaving => 1
    case ParserGone => 0
  }

  /** What is left to do; every step does some of it. */
  function Measure(s: State): nat {
    Weight(Todo(s.worker), 3) + Weight(s.queue, 2) + ParserWeight(s.parser)
    + (match s.worker case Sending(_, _) => 2 case WorkerLeaving => 1 case WorkerGone => 0)
    + (match s.collector case Ranging => 2 case Waiting => 1 case Returned => 0)
    + (if s.crash == NoPanic then 1 else 0)
  }

  lemma SendDescends(capacity: nat, s: State)
    requires Step(capacity, s, WorkerSends).Some? && Orderly(s)
    ensures Measure(Step(capacity, s, WorkerSends).value) < Measure(s)
  {
    WeightFirst(s.worker.todo, 3);
    WeightConcat(s.queue, [s.worker.todo[0]], 2);
    assert [s.worker.todo[0]][..0] == [];
  }

  lemma HandOverDescends(capacity: nat, s: State)
    requires Step(capacity, s, WorkerHandsOver).Some?
    ensures Measure(Step(capacity, s, WorkerHandsOver).value) < Measure(s)
  {
    WeightFirst(s.worker.todo, 3);
  }

  lemma ReceiveDescends(capacity: nat, s: State)
    requires Step(capacity, s, ParserReceives).Some?
    ensures Measure(Step(capacity, s, ParserReceives).value) < Measure(s)
  {
    WeightFirst(s.queue, 2);
  }

  lemma AdvanceDescends(capacity: nat, s: State)
    requires Step(capacity, s, ParserAdvances).Some?
    ensures Measure(Step(capacity, s, ParserAdvances).value) < Measure(s)
  {
    hide Weight;
  }

  lemma StepDescends(capacity: nat, s: State, a: Action)
    requires Orderly(s) && Step(capacity, s, a).Some?
    ensures Measure(Step(capacity, s, a).value) < Measure(s)
  {
    assert Weight([], 3) == 0;
    hide Weight, FrameAt;
    match a
    case WorkerSends =>
      SendDescends(capacity, s);
    case WorkerHandsOver =>
      HandOverDescends(capacity, s);
    case ParserReceives =>
      ReceiveDescends(capacity, s);
    case ParserAdvances =>
      AdvanceDescends(capacity, s);
    case _ =>
  }

  lemma {:induction false} RunsAreShort(capacity: nat, supply: Supply, run: seq<Action>)
    requires Run(capacity, supply, run).Some?
    ensures |run| + Measure(Run(capacity, supply, run).value) <= Measure(Init(supply))
    decreases |run|
  {
    if run != [] {
      hide Step, Measure, Orderly;
      var front := run[..|run| - 1];
      RunsAreShort(capacity, supply, front);
      RunKeepsInv(capacity, supply, front);
      StepDescends(capacity, Run(capacity, supply, front).value, run[|run| - 1]);
    }
  }

  // ----- Every run

  /** Whatever the capacity and the interleaving: channels and wait group are used properly,
      the collected records are a prefix of the sequential parse, and runs are bounded. */
  lemma EveryRunIsSafe(capacity: nat, supply: Supply, run: seq<Action>)
    requires Run(capacity, supply, run).Some?
    ensures var s := Run(capacity, supply, run).value;
      && s.crash != ChannelPanic
      && s.collected <= ParseAll(supply.fragments).records
      && |run| <= Measure(Init(supply))
  {
    RunKeepsInv(capacity, supply, run);
    RunsAreShort(capacity, supply, run);
  }

  /** A run that cannot go on has returned all records of the sequential parse, in order, with
      both channels closed and the wait group at zero; or the sequential parse panics as well,
      and the same records came before the panic; or the worker panicked, after some of them. */
  lemma EveryRunEndsLikeTheParse(capacity: nat, supply: Supply, run: seq<Action>)
    requires Run(capacity, supply, run).Some?
    requires forall a :: Step(capacity, Run(capacity, supply, run).value, a).None?
    ensures var s, parse := Run(capacity, supply, run).value, ParseAll(supply.fragments);
      && (s.collector.Returned? <==> s.crash == NoPanic)
      && (s.collector.Returned? ==> !parse.panics && !supply.panics && s.collected == parse.records)
      && (s.collector.Returned? ==> s.waitGroup == 0 && s.queueClosed && s.recordsClosed && s.queue == [])
      && (s.crash == ParsePanic ==> parse.panics && s.collected == parse.records)
      && (s.crash == WorkerPanic ==> supply.panics && s.collected <= parse.records)
  {
    var s := Run(capacity, supply, run).value;
    EveryRunIsSafe(capacity, supply, run);
    RunKeepsInv(capacity, supply, run);
    if s.crash == NoPanic {
      if !s.collector.Returned? {
        SomeoneMoves(capacity, s);
      }
      assert Pending(s) == Parsed([], false);
      ThenNothing(Parsed(s.collected, false));
    }
  }

  /** So the pipeline panics, in whatever interleaving, if and only if the worker does or some
      fragment ends in a record that is cut short; otherwise it returns. */
  lemma EveryRunPanicsIff(capacity: nat, supply: Supply, run: seq<Action>)
    requires Run(capacity, supply, run).Some?
    requires forall a :: Step(capacity, Run(capacity, supply, run).value, a).None?
    ensures var s := Run(capacity, supply, run).value;
      var bad := supply.panics || exists i :: 0 <= i < |supply.fragments| && CutShort(supply.fragments[i], 0);
      && (s.crash != NoPanic <==> bad)
      && (s.collector.Returned? <==> !bad)
      && (!supply.panics ==> s.crash != WorkerPanic)
  {
    EveryRunIsSafe(capacity, supply, run);
    EveryRunEndsLikeTheParse(capacity, supply, run);
    ParseAllPanicsIff(supply.fragments);
  }
}

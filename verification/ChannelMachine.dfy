/** One producer, one channel, one consumer, and a main thread that waits for both, as
    interleaved atomic steps.  The producer follows a script; the consumer drains the
    channel until it is closed and empty. */
module ChannelMachine {
  import opened Machine

  /** What the producer does next.  Abort is a panic outside the channel operations. */
  datatype Op<T> = Send(item: T) | Close | Abort

  datatype State<T> = State(
    script: seq<Op<T>>,     // what the producer has still to do
    queue: seq<T>,          // the buffer of the channel
    closed: bool,
    received: seq<T>,       // what the consumer has taken
    producing: bool,        // the producer has not returned
    consuming: bool,        // the consumer has not returned
    waitGroup: int,
    returned: bool,         // the main thread is past its wait
    crashed: bool)          // some thread has panicked, which stops the program

  datatype Action = Produce | HandOver | Consume | LeaveProducer | LeaveConsumer | Return

  function Init<T>(script: seq<Op<T>>): State<T> {
    State(script, [], false, [], true, true, 2, false, false)
  }

  /** The state after an action, or None where the action has to wait.  Sending on a closed
      channel and closing it again panic, and so does a wait group that goes below zero. */
  function Step<T>(capacity: nat, s: State<T>, a: Action): Option<State<T>> {
    if s.crashed || s.returned then None
    else
      match a
      case Produce =>
        if s.script == [] then None
        else
          var rest := s.(script := s.script[1..]);
          (match s.script[0]
           case Send(x) =>
             if s.closed then Some(s.(crashed := true))
             else if |s.queue| < capacity then Some(rest.(queue := s.queue + [x]))
             else None
           case Close => if s.closed then Some(s.(crashed := true)) else Some(rest.(closed := true))
           case Abort => Some(s.(crashed := true)))
      case HandOver =>
        if s.script != [] && s.script[0].Send? && !s.closed && s.consuming && s.queue == [] then
          Some(s.(script := s.script[1..], received := s.received + [s.script[0].item]))
        else None
      case Consume =>
        if s.consuming && s.queue != [] then
          Some(s.(queue := s.queue[1..], received := s.received + [s.queue[0]]))
        else None
      case LeaveProducer =>
        if s.producing && s.script == [] then
          Some(s.(producing := false, waitGroup := s.waitGroup - 1, crashed := s.waitGroup < 1))
        else None
      case LeaveConsumer =>
        if s.consuming && s.queue == [] && s.closed then
          Some(s.(consuming := false, waitGroup := s.waitGroup - 1, crashed := s.waitGroup < 1))
        else None
      case Return =>
        if s.waitGroup == 0 then Some(s.(returned := true)) else None
  }

  /** The state after a run, or None where some action of it would have had to wait. */
  function Run<T>(capacity: nat, script: seq<Op<T>>, run: seq<Action>): Option<State<T>> {
    if run == [] then Some(Init(script))
    else
      var before := Run(capacity, script, run[..|run| - 1]);
      if before.Some? then Step(capacity, before.value, run[|run| - 1]) else None
  }

  ghost predicate Stuck<T>(capacity: nat, s: State<T>) {
    forall a :: Step(capacity, s, a).None?
  }

  // ----- Scripts that send everything and then close

  function Sends<T>(items: seq<T>): seq<Op<T>> {
    if items == [] then [] else [Send(items[0])] + Sends(items[1..])
  }

  function SendAll<T>(items: seq<T>): seq<Op<T>> {
    Sends(items) + [Close]
  }

  /** What the script still sends before it closes the channel and ends; None when it does
      anything else. */
  function ToSend<T>(script: seq<Op<T>>): Option<seq<T>> {
    if script == [] then None
    else if |script| == 1 && script[0].Close? then Some([])
    else if script[0].Send? && ToSend(script[1..]).Some? then Some([script[0].item] + ToSend(script[1..]).value)
    else None
  }

  lemma {:induction false} ToSendIs<T>(items: seq<T>)
    ensures ToSend(SendAll(items)) == Some(items)
  {
    if items != [] {
      ToSendIs(items[1..]);
      assert SendAll(items)[1..] == SendAll(items[1..]);
      assert [items[0]] + items[1..] == items;
    }
  }

  /** The channel is closed exactly when the script has been followed to its end, and the
      wait group counts the threads that have not returned. */
  ghost predicate Inv<T>(items: seq<T>, s: State<T>) {
    && !s.crashed
    && s.waitGroup == (if s.producing then 1 else 0) + (if s.consuming then 1 else 0)
    && (s.returned ==> s.waitGroup == 0)
    && (!s.producing ==> s.script == [])
    && (!s.consuming ==> s.queue == [] && s.closed)
    && (s.closed <==> s.script == [])
    && (s.script == [] ==> s.received + s.queue == items)
    && (s.script != [] ==> ToSend(s.script).Some? && s.received + s.queue + ToSend(s.script).value == items)
  }

  lemma StepKeepsInv<T>(capacity: nat, items: seq<T>, s: State<T>, a: Action)
    requires Inv(items, s) && Step(capacity, s, a).Some?
    ensures Inv(items, Step(capacity, s, a).value)
  {
    var t := Step(capacity, s, a).value;
    match a
    case Produce =>
      if s.script[0].Send? {
        var rest := ToSend(s.script[1..]).value;
        assert s.received + s.queue + ([s.script[0].item] + rest) == s.received + t.queue + rest;
      } else {
        assert s.script == [Close];
        assert s.received + s.queue + [] == s.received + s.queue;
      }
    case HandOver =>
      var rest := ToSend(s.script[1..]).value;
      assert s.received + s.queue + ([s.script[0].item] + rest) == t.received + t.queue + rest;
    case Consume =>
      assert s.received + s.queue == t.received + t.queue;
    case _ =>
  }

  lemma {:induction false} RunKeepsInv<T>(capacity: nat, items: seq<T>, run: seq<Action>)
    requires Run(capacity, SendAll(items), run).Some?
    ensures Inv(items, Run(capacity, SendAll(items), run).value)
    decreases |run|
  {
    if run == [] {
      ToSendIs(items);
      assert [] + [] + items == items;
    } else {
      var front := run[..|run| - 1];
      RunKeepsInv(capacity, items, front);
      StepKeepsInv(capacity, items, Run(capacity, SendAll(items), front).value, run[|run| - 1]);
    }
  }

  /** The buffer never holds more than the capacity of the channel. */
  lemma {:induction false} QueueIsBounded<T>(capacity: nat, script: seq<Op<T>>, run: seq<Action>)
    requires Run(capacity, script, run).Some?
    ensures |Run(capacity, script, run).value.queue| <= capacity
    decreases |run|
  {
    if run != [] {
      QueueIsBounded(capacity, script, run[..|run| - 1]);
    }
  }

  /** What is left to do; every step does some of it. */
  function Measure<T>(s: State<T>): nat {
    2 * |s.script| + |s.queue|
    + (if s.producing then 1 else 0) + (if s.consuming then 1 else 0)
    + (if s.returned then 0 else 1) + (if s.crashed then 0 else 1)
  }

  lemma StepDescends<T>(capacity: nat, s: State<T>, a: Action)
    requires Step(capacity, s, a).Some?
    ensures Measure(Step(capacity, s, a).value) < Measure(s)
  {
  }

  lemma {:induction false} RunsAreShort<T>(capacity: nat, script: seq<Op<T>>, run: seq<Action>)
    requires Run(capacity, script, run).Some?
    ensures |run| + Measure(Run(capacity, script, run).value) <= 2 * |script| + 4
    decreases |run|
  {
    if run != [] {
      var front := run[..|run| - 1];
      RunsAreShort(capacity, script, front);
      StepDescends(capacity, Run(capacity, script, front).value, run[|run| - 1]);
    }
  }

  /** No deadlock: short of the return, some thread can move. */
  lemma SomeoneMoves<T>(capacity: nat, items: seq<T>, s: State<T>)
    requires Inv(items, s) && !s.returned
    ensures exists a :: Step(capacity, s, a).Some?
  {
    if s.script != [] && s.script[0].Close? {
      assert Step(capacity, s, Produce).Some?;
    } else if s.queue != [] {
      assert Step(capacity, s, Consume).Some?;
    } else if s.script != [] {
      assert Step(capacity, s, HandOver).Some?;
    } else if s.consuming {
      assert Step(capacity, s, LeaveConsumer).Some?;
    } else if s.producing {
      assert Step(capacity, s, LeaveProducer).Some?;
    } else {
      assert Step(capacity, s, Return).Some?;
    }
  }

  /** A script that sends all items and closes: whatever the capacity and the interleaving,
      nothing panics, no run is longer than a fixed bound, and a run that cannot go on has
      delivered all items in order and returned. */
  lemma EveryRunDelivers<T>(capacity: nat, items: seq<T>, run: seq<Action>)
    requires Run(capacity, SendAll(items), run).Some?
    ensures var s := Run(capacity, SendAll(items), run).value;
      && !s.crashed
      && s.received <= items
      && |run| <= 2 * |SendAll(items)| + 4
      && (s.returned <==> Stuck(capacity, s))
      && (s.returned ==> s.received == items && s.closed && s.queue == [] && s.waitGroup == 0)
  {
    var s := Run(capacity, SendAll(items), run).value;
    RunKeepsInv(capacity, items, run);
    RunsAreShort(capacity, SendAll(items), run);
    if !s.returned {
      SomeoneMoves(capacity, items, s);
    }
  }

  /** Every run can be continued to the return. */
  lemma {:induction false} RunsComplete<T>(capacity: nat, items: seq<T>, run: seq<Action>) returns (whole: seq<Action>)
    requires Run(capacity, SendAll(items), run).Some?
    ensures run <= whole && Run(capacity, SendAll(items), whole).Some?
    ensures Run(capacity, SendAll(items), whole).value.returned
    decreases Measure(Run(capacity, SendAll(items), run).value)
  {
    var s := Run(capacity, SendAll(items), run).value;
    whole := run;
    if !s.returned {
      RunKeepsInv(capacity, items, run);
      SomeoneMoves(capacity, items, s);
      var a :| Step(capacity, s, a).Some?;
      assert (run + [a])[..|run + [a]| - 1] == run;
      StepDescends(capacity, s, a);
      whole := RunsComplete(capacity, items, run + [a]);
    }
  }

  // ----- All other scripts

  /** What the machine has made of its script so far. */
  ghost predicate Followed<T>(script: seq<Op<T>>, done: nat, s: State<T>) {
    && done <= |script|
    && s.script == script[done..]
    && (s.closed ==> done > 0 && script[done - 1] == Close && forall k :: 0 <= k < done - 1 ==> script[k].Send?)
    && (!s.closed ==> forall k :: 0 <= k < done ==> script[k].Send?)
    && (!s.producing && !s.crashed ==> done == |script|)
    && (!s.consuming ==> s.closed)
    && s.waitGroup == (if s.producing then 1 else 0) + (if s.consuming then 1 else 0)
    && (s.returned ==> s.waitGroup == 0 && !s.crashed)
  }

  lemma {:induction false} RunFollows<T>(capacity: nat, script: seq<Op<T>>, run: seq<Action>) returns (done: nat)
    requires Run(capacity, script, run).Some?
    ensures Followed(script, done, Run(capacity, script, run).value)
    decreases |run|
  {
    done := 0;
    if run != [] {
      var front, a := run[..|run| - 1], run[|run| - 1];
      var s, t := Run(capacity, script, front).value, Run(capacity, script, run).value;
      done := RunFollows(capacity, script, front);
      if t.script != s.script {
        assert s.script[1..] == script[done + 1..];
        assert s.script[0] == script[done];
        done := done + 1;
      }
    }
  }

  lemma {:induction false} SendsThenClose<T>(script: seq<Op<T>>)
    requires script != [] && script[|script| - 1] == Close
    requires forall k :: 0 <= k < |script| - 1 ==> script[k].Send?
    ensures ToSend(script).Some? && script == SendAll(ToSend(script).value)
  {
    if script != [Close] {
      SendsThenClose(script[1..]);
      var items := ToSend(script).value;
      assert items[1..] == ToSend(script[1..]).value;
      assert script == [script[0]] + script[1..];
    }
  }

  /** Only a script of that form can be run to the return. */
  lemma ReturnMeansSendAll<T>(capacity: nat, script: seq<Op<T>>, run: seq<Action>)
    requires Run(capacity, script, run).Some? && Run(capacity, script, run).value.returned
    ensures ToSend(script).Some? && script == SendAll(ToSend(script).value)
  {
    var done := RunFollows(capacity, script, run);
    assert script[done..] == [] ==> done == |script|;
    SendsThenClose(script);
  }

  /** Where a run cannot go on: the main thread has returned, some thread has panicked, or
      the consumer waits for a channel that the script leaves open. */
  lemma HowRunsEnd<T>(capacity: nat, script: seq<Op<T>>, run: seq<Action>)
    requires Run(capacity, script, run).Some? && Stuck(capacity, Run(capacity, script, run).value)
    ensures var s := Run(capacity, script, run).value;
      s.crashed || s.returned || (!s.closed && s.consuming && forall k :: 0 <= k < |script| ==> script[k].Send?)
  {
    var s := Run(capacity, script, run).value;
    var done := RunFollows(capacity, script, run);
    if !s.crashed && !s.returned {
      assert Step(capacity, s, Produce).None? && Step(capacity, s, HandOver).None?;
      assert Step(capacity, s, Consume).None? && Step(capacity, s, Return).None?;
      assert Step(capacity, s, LeaveProducer).None? && Step(capacity, s, LeaveConsumer).None?;
      assert s.script == [];
      assert done == |script|;
    }
  }

  /** The state of a script that begins by sending all items, after `done` of its operations. */
  ghost predicate Sending<T>(items: seq<T>, script: seq<Op<T>>, done: nat, s: State<T>) {
    && done <= |script|
    && s.script == script[done..]
    && (done <= |items| ==> !s.closed && s.received + s.queue == items[..done])
    && (done > |items| ==> s.closed && s.received + s.queue == items)
    && (!s.consuming ==> s.closed && s.queue == [])
  }

  /** The script sends these items first, and no other item before it does something else. */
  predicate StartsWith<T(==)>(script: seq<Op<T>>, items: seq<T>) {
    && |script| > |items|
    && !script[|items|].Send?
    && forall k {:trigger script[k]} :: 0 <= k < |items| ==> script[k] == Send(items[k])
  }

  lemma {:induction false} SendingKept<T>(capacity: nat, items: seq<T>, script: seq<Op<T>>, run: seq<Action>)
    returns (done: nat)
    requires StartsWith(script, items) && Run(capacity, script, run).Some?
    ensures Sending(items, script, done, Run(capacity, script, run).value)
    decreases |run|
  {
    done := 0;
    if run != [] {
      var front, a := run[..|run| - 1], run[|run| - 1];
      var s, t := Run(capacity, script, front).value, Run(capacity, script, run).value;
      done := SendingKept(capacity, items, script, front);
      done := SendingStep(capacity, items, script, done, s, a);
    }
  }

  lemma SendingStep<T>(capacity: nat, items: seq<T>, script: seq<Op<T>>, done: nat, s: State<T>, a: Action)
    returns (more: nat)
    requires StartsWith(script, items) && Sending(items, script, done, s) && Step(capacity, s, a).Some?
    ensures Sending(items, script, more, Step(capacity, s, a).value)
  {
    var t := Step(capacity, s, a).value;
    more := done;
    if t.script != s.script {
      assert s.script[1..] == script[done + 1..];
      assert s.script[0] == script[done];
      more := done + 1;
      if done < |items| {
        assert t.received + t.queue == s.received + s.queue + [items[done]];
        assert items[..done + 1] == items[..done] + [items[done]];
      }
    } else {
      assert t.received + t.queue == s.received + s.queue;
    }
  }

  /** Whatever the script does after these items, the consumer receives nothing but them, and
      all of them if it gets to its end. */
  lemma OnlyFirstItemsArrive<T>(capacity: nat, items: seq<T>, script: seq<Op<T>>, run: seq<Action>)
    requires StartsWith(script, items) && Run(capacity, script, run).Some?
    ensures var s := Run(capacity, script, run).value;
      s.received <= items && (!s.consuming ==> s.received == items)
  {
    hide Run;
    var done := SendingKept(capacity, items, script, run);
    var s := Run(capacity, script, run).value;
    FrontIsPrefix(s.received, s.queue, items, if done <= |items| then done else |items|);
  }

  lemma FrontIsPrefix<T>(a: seq<T>, b: seq<T>, items: seq<T>, n: nat)
    requires n <= |items| && (a + b == items[..n] || (n == |items| && a + b == items))
    ensures a <= items && (b == [] && a + b == items ==> a == items)
  {
    forall k | 0 <= k < |a| ensures a[k] == items[k] {
      assert (a + b)[k] == a[k];
    }
  }

  // ----- Two runs that any such script has

  function HandOvers(n: nat): seq<Action> {
    if n == 0 then [] else HandOvers(n - 1) + [HandOver]
  }

  /** The first n items have been handed over. */
  function HandedOver<T>(items: seq<T>, script: seq<Op<T>>, n: nat): State<T>
    requires StartsWith(script, items) && n <= |items|
  {
    Init(script).(script := script[n..], received := items[..n])
  }

  lemma HandOneOver<T>(capacity: nat, items: seq<T>, script: seq<Op<T>>, n: nat)
    requires StartsWith(script, items) && 0 < n <= |items|
    ensures Step(capacity, HandedOver(items, script, n - 1), HandOver) == Some(HandedOver(items, script, n))
  {
    assert script[n - 1..][1..] == script[n..] && script[n - 1] == Send(items[n - 1]);
    assert items[..n] == items[..n - 1] + [items[n - 1]];
  }

  lemma {:induction false} HandingOver<T>(capacity: nat, items: seq<T>, script: seq<Op<T>>, n: nat)
    requires StartsWith(script, items) && n <= |items|
    ensures Run(capacity, script, HandOvers(n)) == Some(HandedOver(items, script, n))
  {
    assert script[0..] == script && items[..0] == [];
    assert HandedOver(items, script, 0) == Init(script);
    hide Step, HandedOver, StartsWith;
    if n > 0 {
      HandingOver(capacity, items, script, n - 1);
      assert HandOvers(n)[..|HandOvers(n)| - 1] == HandOvers(n - 1);
      HandOneOver(capacity, items, script, n);
    }
  }

  /** Both threads at work, everything received, and the channel closed. */
  function AllHandedOver<T>(items: seq<T>, script: seq<Op<T>>): State<T>
    requires |script| > |items|
  {
    Init(script).(script := script[|items| + 1..], received := items, closed := true)
  }

  /** One run hands over all items and closes the channel. */
  lemma HandsOverAll<T>(capacity: nat, items: seq<T>, script: seq<Op<T>>) returns (run: seq<Action>)
    requires StartsWith(script, items) && script[|items|] == Close
    ensures Run(capacity, script, run) == Some(AllHandedOver(items, script))
  {
    HandingOver(capacity, items, script, |items|);
    assert items[..|items|] == items;
    assert script[|items|..][0] == Close && script[|items|..][1..] == script[|items| + 1..];
    run := HandOvers(|items|) + [Produce];
    assert run[..|run| - 1] == HandOvers(|items|);
  }

  lemma RunOneMore<T>(capacity: nat, script: seq<Op<T>>, run: seq<Action>, a: Action)
    requires Run(capacity, script, run).Some?
    ensures Run(capacity, script, run + [a]) == Step(capacity, Run(capacity, script, run).value, a)
  {
    assert (run + [a])[..|run + [a]| - 1] == run;
  }

  /** The consumer can come to its end while the producer still runs. */
  lemma ConsumerCanEndFirst<T>(capacity: nat, items: seq<T>, script: seq<Op<T>>) returns (run: seq<Action>)
    requires StartsWith(script, items) && script[|items|] == Close
    ensures Run(capacity, script, run).Some?
    ensures var s := Run(capacity, script, run).value; !s.consuming && s.producing && !s.crashed
  {
    run := HandsOverAll(capacity, items, script);
    RunOneMore(capacity, script, run, LeaveConsumer);
    run := run + [LeaveConsumer];
  }

  /** And if the script goes on after its close, the producer can panic before that. */
  lemma ProducerCanPanicFirst<T>(capacity: nat, items: seq<T>, script: seq<Op<T>>) returns (run: seq<Action>)
    requires StartsWith(script, items) && script[|items|] == Close && |script| > |items| + 1
    ensures Run(capacity, script, run).Some?
    ensures var s := Run(capacity, script, run).value; s.crashed && s.consuming
  {
    run := HandsOverAll(capacity, items, script);
    RunOneMore(capacity, script, run, Produce);
    run := run + [Produce];
  }
}

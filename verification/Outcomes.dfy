/** Calls made in turn, up to the first one that does not return. */
module Outcomes {
  import opened Machine

  predicate AllReturn<T>(calls: seq<Outcome<T>>) {
    forall i :: 0 <= i < |calls| ==> calls[i].Returns?
  }

  /** What is returned before the first call that does not return. */
  function Ready<T>(calls: seq<Outcome<T>>): (ready: seq<T>)
    ensures |ready| <= |calls|
    ensures AllReturn(calls) ==> |ready| == |calls|
    ensures !AllReturn(calls) ==> |ready| < |calls| && !calls[|ready|].Returns?
    ensures forall i {:trigger ready[i]} :: 0 <= i < |ready| ==> calls[i] == Returns(ready[i])
  {
    if calls == [] || !calls[0].Returns? then [] else [calls[0].value] + Ready(calls[1..])
  }

  lemma {:induction false} ReadyConcat<T>(a: seq<Outcome<T>>, b: seq<Outcome<T>>)
    ensures AllReturn(a) ==> Ready(a + b) == Ready(a) + Ready(b)
    ensures !AllReturn(a) ==> Ready(a + b) == Ready(a)
    ensures AllReturn(a + b) <==> AllReturn(a) && AllReturn(b)
  {
    hide AllReturn;
    AllReturnConcat(a, b);
    if a == [] {
      assert a + b == b;
    } else if a[0].Returns? {
      assert (a + b)[1..] == a[1..] + b;
      ReadyConcat(a[1..], b);
      AllReturnConcat([a[0]], a[1..]);
      assert [a[0]] + a[1..] == a;
    }
  }

  lemma AllReturnConcat<T>(a: seq<Outcome<T>>, b: seq<Outcome<T>>)
    ensures AllReturn(a + b) <==> AllReturn(a) && AllReturn(b)
  {
    if AllReturn(a + b) {
      forall i | 0 <= i < |a| ensures a[i].Returns? {
        assert (a + b)[i].Returns?;
      }
      forall i | 0 <= i < |b| ensures b[i].Returns? {
        assert (a + b)[|a| + i].Returns?;
      }
    }
  }

  /** One call more: either it returns, or all the others do not matter. */
  lemma OneMoreCall<T>(calls: seq<Outcome<T>>, k: nat)
    requires k < |calls| && AllReturn(calls[..k])
    ensures calls[k].Returns? ==>
      AllReturn(calls[..k + 1]) && Ready(calls[..k + 1]) == Ready(calls[..k]) + [calls[k].value]
    ensures !calls[k].Returns? ==> !AllReturn(calls) && Ready(calls) == Ready(calls[..k])
  {
    var call, rest := [calls[k]], calls[k..];
    assert calls[..k] + call == calls[..k + 1] && calls[..k] + rest == calls;
    ReadyConcat(calls[..k], call);
    ReadyConcat(calls[..k], rest);
    if calls[k].Returns? {
      assert Ready(call) == [call[0].value] + Ready(call[1..]);
    } else {
      assert Ready(rest) == [];
      assert Ready(calls[..k]) + [] == Ready(calls[..k]);
    }
  }
}

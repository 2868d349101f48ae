/** Chains of at most one link per node, which may loop.  Node i links to next[i]. */
module Chains {
  import opened Machine

  type Links = seq<Option<nat>>

  ghost predicate Closed(next: Links) {
    forall i {:trigger next[i]} :: 0 <= i < |next| && next[i].Some? ==> next[i].value < |next|
  }

  /** The node after n links, or None once the chain has ended. */
  ghost function Walk(next: Links, i: nat, n: nat): (end: Option<nat>)
    requires Closed(next) && i < |next|
    ensures end.Some? ==> end.value < |next|
  {
    if n == 0 then Some(i)
    else
      var before := Walk(next, i, n - 1);
      if before.Some? then next[before.value] else None
  }

  ghost predicate Ends(next: Links, i: nat)
    requires Closed(next) && i < |next|
  {
    exists n: nat :: Walk(next, i, n).None?
  }

  lemma {:induction false} WalkSum(next: Links, i: nat, m: nat, n: nat)
    requires Closed(next) && i < |next|
    ensures Walk(next, i, m + n)
         == if Walk(next, i, m).Some? then Walk(next, Walk(next, i, m).value, n) else None
    decreases n
  {
    if n > 0 {
      WalkSum(next, i, m, n - 1);
    }
  }

  /** A node that comes back to itself never ends. */
  lemma {:induction false} CycleNeverEnds(next: Links, x: nat, d: nat, n: nat)
    requires Closed(next) && x < |next| && d > 0 && Walk(next, x, d) == Some(x)
    ensures Walk(next, x, n).Some?
    decreases n
  {
    if n >= d {
      CycleNeverEnds(next, x, d, n - d);
      WalkSum(next, x, d, n - d);
    } else {
      WalkSum(next, x, n, d - n);
    }
  }

  lemma MutualLinksNeverEnd(next: Links, i: nat, j: nat)
    requires Closed(next) && i < |next| && j < |next| && next[i] == Some(j) && next[j] == Some(i)
    ensures !Ends(next, i)
  {
    assert Walk(next, i, 0) == Some(i);
    assert Walk(next, i, 1) == Some(j);
    assert Walk(next, i, 2) == Some(i);
    forall n: nat ensures Walk(next, i, n).Some? {
      CycleNeverEnds(next, i, 2, n);
    }
  }

  /** Before it ends, a chain does not meet a node twice. */
  lemma NoRepetition(next: Links, i: nat, a: nat, b: nat, n: nat)
    requires Closed(next) && i < |next| && a < b && Walk(next, i, n).None?
    requires Walk(next, i, b).Some?
    ensures Walk(next, i, a).Some? && Walk(next, i, a) != Walk(next, i, b)
  {
    WalkSum(next, i, a, b - a);
    if Walk(next, i, a) == Walk(next, i, b) {
      var x := Walk(next, i, a).value;
      CycleNeverEnds(next, x, b - a, n);
      WalkSum(next, i, a, n);
      WalkSum(next, i, n, a);
    }
  }

  function Below(n: nat): set<nat> {
    if n == 0 then {} else Below(n - 1) + {n - 1}
  }

  lemma {:induction false} BelowIs(n: nat, x: nat)
    ensures x in Below(n) <==> x < n
    ensures |Below(n)| == n
  {
    if n > 0 {
      BelowIs(n - 1, x);
      BelowIs(n - 1, n - 1);
    }
  }

  /** The chain from i meets x in its first n steps. */
  ghost predicate Meets(next: Links, i: nat, n: nat, x: nat)
    requires Closed(next) && i < |next|
  {
    exists k: nat :: k < n && Walk(next, i, k) == Some(x)
  }

  /** Within n steps the chain from i meets some node twice. */
  ghost predicate Repeats(next: Links, i: nat, n: nat)
    requires Closed(next) && i < |next|
  {
    exists a: nat, b: nat :: a < b < n && Walk(next, i, b).Some? && Walk(next, i, a) == Walk(next, i, b)
  }

  /** The nodes met in the first n steps are that many different nodes. */
  lemma {:induction false} Visited(next: Links, i: nat, n: nat) returns (seen: set<nat>)
    requires Closed(next) && i < |next| && !Repeats(next, i, n)
    requires n > 0 ==> Walk(next, i, n - 1).Some?
    ensures |seen| == n
    ensures forall x :: x in seen ==> Meets(next, i, n, x)
    decreases n
  {
    seen := {};
    if n > 0 {
      var x := Walk(next, i, n - 1).value;
      if n > 1 {
        assert Walk(next, i, n - 2).Some?;
      }
      var before := Visited(next, i, n - 1);
      assert !Meets(next, i, n - 1, x);
      seen := before + {x};
      forall y | y in before ensures Meets(next, i, n, y) {
        var k: nat :| k < n - 1 && Walk(next, i, k) == Some(y);
        assert k < n;
      }
    }
  }

  /** By the pigeonhole principle, a chain that has not ended after as many steps as there
      are nodes has met a node twice. */
  lemma LongChainsRepeat(next: Links, i: nat)
    requires Closed(next) && i < |next| && Walk(next, i, |next|).Some?
    ensures Repeats(next, i, |next| + 1)
  {
    if !Repeats(next, i, |next| + 1) {
      var seen := Visited(next, i, |next| + 1);
      forall x | x in seen ensures x in Below(|next|) {
        var k: nat :| k < |next| + 1 && Walk(next, i, k) == Some(x);
        BelowIs(|next|, x);
      }
      assert Below(|next|) == seen + (Below(|next|) - seen);
      BelowIs(|next|, 0);
    }
  }

  /** A chain ends within as many steps as there are nodes, or never. */
  lemma EndsSoonOrNever(next: Links, i: nat)
    requires Closed(next) && i < |next|
    ensures Ends(next, i) <==> Walk(next, i, |next|).None?
  {
    if n: nat :| Walk(next, i, n).None? && Walk(next, i, |next|).Some? {
      LongChainsRepeat(next, i);
      var a: nat, b: nat :| a < b < |next| + 1 && Walk(next, i, b).Some? && Walk(next, i, a) == Walk(next, i, b);
      NoRepetition(next, i, a, b, n);
    }
  }

  /** A chain never ends if and only if it leads to a node that comes back to itself. */
  lemma NeverEndsIffCycle(next: Links, i: nat)
    requires Closed(next) && i < |next|
    ensures !Ends(next, i)
       <==> exists x: nat, d: nat :: x < |next| && Meets(next, i, |next|, x)
                                  && 0 < d <= |next| && Walk(next, x, d) == Some(x)
  {
    EndsSoonOrNever(next, i);
    if !Ends(next, i) {
      LongChainsRepeat(next, i);
      var a: nat, b: nat :| a < b < |next| + 1 && Walk(next, i, b).Some? && Walk(next, i, a) == Walk(next, i, b);
      WalkSum(next, i, a, b - a);
      var x := Walk(next, i, a).value;
      assert Meets(next, i, |next|, x) && Walk(next, x, b - a) == Some(x);
    }
    if x: nat, d: nat :| x < |next| && Meets(next, i, |next|, x) && 0 < d <= |next| && Walk(next, x, d) == Some(x) {
      var k: nat :| k < |next| && Walk(next, i, k) == Some(x);
      CycleNeverEnds(next, x, d, |next| - k);
      WalkSum(next, i, k, |next| - k);
    }
  }

  /** The nodes after i, nearest last, within n steps. */
  ghost function Chain(next: Links, i: nat, n: nat): (nodes: seq<nat>)
    requires Closed(next) && i < |next|
    ensures forall k {:trigger nodes[k]} :: 0 <= k < |nodes| ==> nodes[k] < |next|
    decreases n
  {
    if n == 0 || next[i].None? then []
    else Chain(next, next[i].value, n - 1) + [next[i].value]
  }

  lemma {:induction false} WalkFirst(next: Links, i: nat, n: nat)
    requires Closed(next) && i < |next| && n > 0
    ensures Walk(next, i, n) == if next[i].Some? then Walk(next, next[i].value, n - 1) else None
  {
    WalkSum(next, i, 1, n - 1);
    assert Walk(next, i, 1) == next[i] by {
      assert Walk(next, i, 0) == Some(i);
    }
  }

  /** Once the chain has ended, more steps add nothing. */
  lemma {:induction false} ChainStable(next: Links, i: nat, m: nat, n: nat)
    requires Closed(next) && i < |next| && Walk(next, i, m).None? && Walk(next, i, n).None?
    ensures Chain(next, i, m) == Chain(next, i, n)
    decreases m
  {
    if next[i].Some? {
      WalkFirst(next, i, m);
      WalkFirst(next, i, n);
      ChainStable(next, next[i].value, m - 1, n - 1);
    }
  }

  /** All nodes after i, outermost first. */
  ghost function Ancestors(next: Links, i: nat): seq<nat>
    requires Closed(next) && i < |next|
  {
    Chain(next, i, |next|)
  }

  /** The ancestors of i are those of its parent, then the parent. */
  lemma AncestorsOfParent(next: Links, i: nat)
    requires Closed(next) && i < |next| && Ends(next, i)
    ensures next[i].None? ==> Ancestors(next, i) == []
    ensures next[i].Some? ==>
      && Ends(next, next[i].value)
      && Ancestors(next, i) == Ancestors(next, next[i].value) + [next[i].value]
  {
    EndsSoonOrNever(next, i);
    if next[i].Some? {
      var p := next[i].value;
      WalkFirst(next, i, |next|);
      assert Walk(next, p, |next| - 1).None?;
      EndsSoonOrNever(next, p);
      ChainStable(next, p, |next|, |next| - 1);
    }
  }

  /** The last node of the chain. */
  ghost function Last(next: Links, i: nat): (last: nat)
    requires Closed(next) && i < |next|
    ensures last < |next|
  {
    if Ancestors(next, i) == [] then i else Ancestors(next, i)[0]
  }

  lemma LastOfParent(next: Links, i: nat)
    requires Closed(next) && i < |next| && Ends(next, i) && next[i].Some?
    ensures Last(next, i) == Last(next, next[i].value)
  {
    AncestorsOfParent(next, i);
  }
}

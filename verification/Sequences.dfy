/** Counting occurrences in a sequence, and finding one sequence inside another. */
module Sequences {

  function Count<T(==)>(xs: seq<T>, x: T): nat {
    if xs == [] then 0
    else Count(xs[..|xs| - 1], x) + if xs[|xs| - 1] == x then 1 else 0
  }

  lemma {:induction false} CountConcat<T>(a: seq<T>, b: seq<T>, x: T)
    ensures Count(a + b, x) == Count(a, x) + Count(b, x)
    decreases |b|
  {
    if b == [] {
      assert a + b == a;
    } else {
      var last := |b| - 1;
      assert (a + b)[..|a + b| - 1] == a + b[..last];
      CountConcat(a, b[..last], x);
    }
  }

  lemma {:induction false} CountIn<T>(xs: seq<T>, x: T)
    ensures x in xs <==> Count(xs, x) > 0
  {
    if xs != [] {
      CountIn(xs[..|xs| - 1], x);
      assert xs == xs[..|xs| - 1] + [xs[|xs| - 1]];
    }
  }

  /** What counts twice occurs at two places. */
  lemma {:induction false} CountTwoPlaces<T>(xs: seq<T>, x: T) returns (i: nat, j: nat)
    requires Count(xs, x) >= 2
    ensures i < j < |xs| && xs[i] == x && xs[j] == x
  {
    var last := |xs| - 1;
    if xs[last] == x {
      j := last;
      CountIn(xs[..last], x);
      i :| 0 <= i < last && xs[..last][i] == x;
    } else {
      i, j := CountTwoPlaces(xs[..last], x);
    }
  }

  /** Two occurrences of x at different places count twice. */
  lemma CountTwice<T>(xs: seq<T>, x: T, i: nat, j: nat)
    requires i < j < |xs| && xs[i] == x && xs[j] == x
    ensures Count(xs, x) >= 2
  {
    var a, b := xs[..i + 1], xs[i + 1..];
    assert xs == a + b && a[i] == x && b[j - i - 1] == x;
    CountConcat(a, b, x);
    CountIn(a, x);
    CountIn(b, x);
  }

  /** The elements of w stand at pos. */
  ghost predicate StandsAt<T>(xs: seq<T>, pos: nat, w: seq<T>) {
    pos + |w| <= |xs| && forall i {:trigger w[i]} :: 0 <= i < |w| ==> xs[pos + i] == w[i]
  }

  lemma StandsAtParts<T>(xs: seq<T>, pos: nat, a: seq<T>, b: seq<T>)
    requires StandsAt(xs, pos, a + b)
    ensures StandsAt(xs, pos, a) && StandsAt(xs, pos + |a|, b)
  {
    var w := a + b;
    forall i | 0 <= i < |a| ensures xs[pos + i] == a[i] {
      assert w[i] == a[i];
    }
    forall i | 0 <= i < |b| ensures xs[pos + |a| + i] == b[i] {
      assert w[|a| + i] == b[i];
    }
  }

  lemma StandsAtJoined<T>(xs: seq<T>, pos: nat, a: seq<T>, b: seq<T>)
    requires StandsAt(xs, pos, a) && StandsAt(xs, pos + |a|, b)
    ensures StandsAt(xs, pos, a + b)
  {
    forall i | 0 <= i < |a + b| ensures xs[pos + i] == (a + b)[i] {
      if i >= |a| {
        assert b[i - |a|] == xs[pos + |a| + (i - |a|)];
      } else {
        assert a[i] == xs[pos + i];
      }
    }
  }
}

/** The order in which the directory tree is listed. */
module DirectoryTreeListing {
  import opened Sequences
  import opened DirectoryTreeModel

  /** A slot that is listed as x comes before one that is listed as y: its parent does, and
      among the children of one slot the older one. */
  ghost predicate First(s: State, x: nat, y: nat)
    requires x < |s| && y < |s|
  {
    s[y].parent == x || (s[x].parent == s[y].parent && x < y)
  }

  ghost predicate InRange(s: State, order: seq<nat>) {
    forall p {:trigger order[p]} :: 0 <= p < |order| ==> order[p] < |s|
  }

  ghost predicate TopDown(s: State, order: seq<nat>)
    requires InRange(s, order)
  {
    forall p, q :: 0 <= p < |order| && 0 <= q < |order| && First(s, order[p], order[q]) ==> p < q
  }

  lemma TopDownConcat(s: State, a: seq<nat>, b: seq<nat>)
    requires InRange(s, a) && InRange(s, b) && TopDown(s, a) && TopDown(s, b)
    requires forall p, q :: 0 <= p < |b| && 0 <= q < |a| ==> !First(s, b[p], a[q])
    ensures InRange(s, a + b) && TopDown(s, a + b)
  {
    hide First;
    var order := a + b;
    forall p, q | 0 <= p < |order| && 0 <= q < |order| && First(s, order[p], order[q]) ensures p < q {
      assert order[p] == if p < |a| then a[p] else b[p - |a|];
      assert order[q] == if q < |a| then a[q] else b[q - |a|];
    }
  }

  lemma ListedBelow(s: State, k: nat, j: nat)
    requires ParentsFirst(s) && k < |s| && j in Order(s, k)
    ensures k < j < |s| && Above(s, k, s[j].parent)
  {
    CountIn(Order(s, k), j);
    OrderOnce(s, k, j);
    AboveIsSmaller(s, k, j);
  }

  lemma {:induction false} ListedBelowAKid(s: State, k: nat, n: nat, j: nat) returns (c: nat)
    requires ParentsFirst(s) && k < |s| && n <= |Kids(s, k)| && j in OrderBelow(s, k, n)
    ensures c < n && j in Order(s, Kids(s, k)[c])
  {
    KidIsBelow(s, k, n - 1);
    if j in Order(s, Kids(s, k)[n - 1]) {
      c := n - 1;
    } else {
      c := ListedBelowAKid(s, k, n - 1, j);
    }
  }

  /** Slots below different children of k are neither parent and child nor siblings. */
  lemma KidsDoNotMix(s: State, k: nat, c: nat, d: nat, x: nat, y: nat)
    requires ParentsFirst(s) && k < |s| && c < |Kids(s, k)| && d < |Kids(s, k)| && c != d
    requires x in Order(s, Kids(s, k)[c]) && y in Order(s, Kids(s, k)[d])
    ensures x < |s| && y < |s| && !First(s, x, y)
  {
    var a, b := Kids(s, k)[c], Kids(s, k)[d];
    ListedBelow(s, a, x);
    ListedBelow(s, b, y);
    assert Above(s, a, x);
    if s[y].parent == x {
      KidsAreDisjoint(s, k, c, d, x);
    } else if s[x].parent == s[y].parent {
      KidsAreDisjoint(s, k, c, d, s[y].parent);
    }
  }

  lemma KidsAreTopDown(s: State, k: nat)
    requires ParentsFirst(s) && k < |s|
    ensures InRange(s, Kids(s, k)) && TopDown(s, Kids(s, k))
  {
    var kids := Kids(s, k);
    forall p, q | 0 <= p < |kids| && 0 <= q < |kids| && First(s, kids[p], kids[q]) ensures p < q {
      KidIsBelow(s, k, p);
      if q < p {
        KidsAscend(s, k, |s|, q, p);
      }
    }
  }

  /** In the listing from any slot every parent stands before its children, and children stand
      in record order. */
  lemma {:induction false} OrderIsTopDown(s: State, k: nat)
    requires ParentsFirst(s) && k < |s|
    ensures InRange(s, Order(s, k)) && TopDown(s, Order(s, k))
    decreases |s| - k, 1, 0
  {
    var kids, below := Kids(s, k), OrderBelow(s, k, |Kids(s, k)|);
    KidsAreTopDown(s, k);
    OrderBelowIsTopDown(s, k, |kids|);
    forall p, q | 0 <= p < |below| && 0 <= q < |kids| ensures !First(s, below[p], kids[q]) {
      var c := ListedBelowAKid(s, k, |kids|, below[p]);
      ListedBelow(s, kids[c], below[p]);
      KidIsBelow(s, k, c);
      AboveIsSmaller(s, kids[c], s[below[p]].parent);
    }
    TopDownConcat(s, kids, below);
  }

  lemma {:induction false} OrderBelowIsTopDown(s: State, k: nat, n: nat)
    requires ParentsFirst(s) && k < |s| && n <= |Kids(s, k)|
    ensures InRange(s, OrderBelow(s, k, n)) && TopDown(s, OrderBelow(s, k, n))
    decreases |s| - k, 0, n
  {
    if n > 0 {
      KidIsBelow(s, k, n - 1);
      var before, more := OrderBelow(s, k, n - 1), Order(s, Kids(s, k)[n - 1]);
      OrderBelowIsTopDown(s, k, n - 1);
      OrderIsTopDown(s, Kids(s, k)[n - 1]);
      forall p, q | 0 <= p < |more| && 0 <= q < |before| ensures !First(s, more[p], before[q]) {
        var c := ListedBelowAKid(s, k, n - 1, before[q]);
        KidsDoNotMix(s, k, n - 1, c, more[p], before[q]);
      }
      TopDownConcat(s, before, more);
    }
  }
}

/** Paths of BTRFS directory entries.  Each entry walks up to the root for its own path, and
    then this is repeated for each child. */
module PathBuilding {
  import opened Machine
  import opened Sequences

  // ----- The entries as a value

  /** The names, parents and children of all entries.  Depth and height only say that walks
      to parents and walks to children come to an end. */
  datatype Shape = Shape(names: seq<string>, parents: seq<Option<nat>>, kids: seq<seq<nat>>,
                         depth: seq<nat>, height: seq<nat>)

  /** Every walk up and every walk down ends.  Parents and children need not agree. */
  predicate Walkable(t: Shape) {
    && |t.names| == |t.parents| == |t.kids| == |t.depth| == |t.height|
    && (forall j {:trigger t.parents[j]} :: 0 <= j < |t.parents| && t.parents[j].Some? ==>
          t.parents[j].value < |t.depth| && t.depth[t.parents[j].value] < t.depth[j])
    && forall i, c {:trigger t.kids[i][c]} :: 0 <= i < |t.kids| && 0 <= c < |t.kids[i]| ==>
         t.kids[i][c] < |t.height| && t.height[t.kids[i][c]] < t.height[i]
  }

  predicate IsChild(t: Shape, j: nat, i: nat) {
    j < |t.parents| && t.parents[j] == Some(i)
  }

  /** The children of i are listed once each. */
  predicate Lists(t: Shape, i: nat)
    requires i < |t.kids|
  {
    && (forall c {:trigger t.kids[i][c]} :: 0 <= c < |t.kids[i]| ==> IsChild(t, t.kids[i][c], i))
    && (forall j {:trigger IsChild(t, j, i)} :: 0 <= j < |t.parents| && IsChild(t, j, i) ==> j in t.kids[i])
    && forall c, d :: 0 <= c < d < |t.kids[i]| ==> t.kids[i][c] != t.kids[i][d]
  }

  /** Parent and child pointers agree. */
  predicate Consistent(t: Shape) {
    && Walkable(t)
    && forall i {:trigger t.kids[i]} :: 0 <= i < |t.kids| ==> Lists(t, i)
  }

  function Step(name: string): string {
    if name == "" then "" else "\\" + name
  }

  /** The path of j, defined from the root down. */
  function PathTo(t: Shape, j: nat): string
    requires Walkable(t) && j < |t.parents|
    decreases t.depth[j]
  {
    match t.parents[j]
    case None => ""
    case Some(p) => PathTo(t, p) + Step(t.names[p])
  }

  /** The names met on the way up from j, nearest first. */
  function NamesAbove(t: Shape, j: nat): seq<string>
    requires Walkable(t) && j < |t.parents|
    decreases t.depth[j]
  {
    match t.parents[j]
    case None => []
    case Some(p) => [t.names[p]] + NamesAbove(t, p)
  }

  /** The names from place k on, the last one first. */
  function Joined(names: seq<string>, k: nat): string
    requires k <= |names|
    decreases |names| - k
  {
    if k == |names| then "" else Joined(names, k + 1) + Step(names[k])
  }

  lemma JoinedEnds(start: string, names: seq<string>)
    ensures start + Joined(names, |names|) == start
  {
  }

  lemma JoinedOneMore(start: string, names: seq<string>, k: nat)
    requires k < |names|
    ensures start + Joined(names, k) ==
            if names[k] == "" then start + Joined(names, k + 1)
            else (start + Joined(names, k + 1)) + ("\\" + names[k])
  {
    assert Joined(names, k) == Joined(names, k + 1) + Step(names[k]);
  }

  lemma {:induction false} JoinedBehind(names: seq<string>, longer: seq<string>, k: nat)
    requires k <= |names| && |longer| == |names| + 1
    requires forall m {:trigger names[m]} :: 0 <= m < |names| ==> longer[m + 1] == names[m]
    ensures Joined(longer, k + 1) == Joined(names, k)
    decreases |names| - k
  {
    hide Step;
    if k < |names| {
      JoinedBehind(names, longer, k + 1);
      assert longer[k + 1] == names[k];
    }
  }

  /** The walk up and the definition from the top down give the same path. */
  lemma {:induction false} WalkingUpAgrees(t: Shape, j: nat)
    requires Walkable(t) && j < |t.parents|
    ensures Joined(NamesAbove(t, j), 0) == PathTo(t, j)
    decreases t.depth[j]
  {
    if t.parents[j].Some? {
      var p := t.parents[j].value;
      WalkingUpAgrees(t, p);
      JoinedBehind(NamesAbove(t, p), NamesAbove(t, j), 0);
    }
  }

  // ----- What the recursion leaves behind

  /** The entries visited from i, in order, each as often as the recursion gets there. */
  function Visits(t: Shape, i: nat): (order: seq<nat>)
    requires Walkable(t) && i < |t.kids|
    ensures InRange(t, order)
    decreases t.height[i], 1, 0
  {
    [i] + VisitsBelow(t, i, |t.kids[i]|)
  }

  /** The entries visited from the first n children of i. */
  function VisitsBelow(t: Shape, i: nat, n: nat): (order: seq<nat>)
    requires Walkable(t) && i < |t.kids| && n <= |t.kids[i]|
    ensures InRange(t, order)
    decreases t.height[i], 0, n
  {
    if n == 0 then [] else VisitsBelow(t, i, n - 1) + Visits(t, t.kids[i][n - 1])
  }

  predicate InRange(t: Shape, order: seq<nat>) {
    forall k {:trigger order[k]} :: 0 <= k < |order| ==> order[k] < |t.parents|
  }

  /** The paths after these visits, each of which extends one path. */
  function After(t: Shape, order: seq<nat>, paths: seq<string>): (longer: seq<string>)
    requires Walkable(t) && InRange(t, order) && |paths| == |t.parents|
    ensures |longer| == |paths|
  {
    if order == [] then paths
    else
      var last := |order| - 1;
      var before := After(t, order[..last], paths);
      before[order[last] := before[order[last]] + PathTo(t, order[last])]
  }

  lemma {:induction false} AfterConcat(t: Shape, a: seq<nat>, b: seq<nat>, paths: seq<string>)
    requires Walkable(t) && InRange(t, a) && InRange(t, b) && |paths| == |t.parents|
    ensures InRange(t, a + b)
    ensures After(t, a + b, paths) == After(t, b, After(t, a, paths))
    decreases |b|
  {
    if b == [] {
      assert a + b == a;
    } else {
      var last := |b| - 1;
      assert (a + b)[..|a + b| - 1] == a + b[..last];
      AfterConcat(t, a, b[..last], paths);
    }
  }

  function Repeated(s: string, times: nat): string {
    if times == 0 then "" else Repeated(s, times - 1) + s
  }

  /** Every visit of an entry adds its path once more. */
  lemma {:induction false} AfterAddsPaths(t: Shape, order: seq<nat>, paths: seq<string>, j: nat)
    requires Walkable(t) && InRange(t, order) && j < |paths| == |t.parents|
    ensures After(t, order, paths)[j] == paths[j] + Repeated(PathTo(t, j), Count(order, j))
  {
    hide PathTo, Walkable;
    if order == [] {
      assert paths[j] + "" == paths[j];
    } else {
      var front := order[..|order| - 1];
      AfterAddsPaths(t, front, paths, j);
      var p := PathTo(t, j);
      assert paths[j] + (Repeated(p, Count(front, j)) + p) == (paths[j] + Repeated(p, Count(front, j))) + p;
    }
  }

  // ----- The entries below an entry

  /** Entry j is i or a descendant of i. */
  predicate Under(t: Shape, j: nat, i: nat)
    requires Walkable(t) && j < |t.parents|
    decreases t.depth[j]
  {
    j == i || (t.parents[j].Some? && Under(t, t.parents[j].value, i))
  }

  lemma {:induction false} UnderIsDeeper(t: Shape, j: nat, i: nat)
    requires Walkable(t) && j < |t.parents| && Under(t, j, i)
    ensures i < |t.parents| && t.depth[i] <= t.depth[j]
    decreases t.depth[j]
  {
    if j != i {
      UnderIsDeeper(t, t.parents[j].value, i);
    }
  }

  lemma {:induction false} UnderKidIsUnder(t: Shape, j: nat, kid: nat, i: nat)
    requires Walkable(t) && j < |t.parents| && IsChild(t, kid, i) && Under(t, j, kid)
    ensures Under(t, j, i) && j != i
    decreases t.depth[j]
  {
    UnderIsDeeper(t, j, kid);
    if j != kid {
      UnderKidIsUnder(t, t.parents[j].value, kid, i);
    }
  }

  /** An entry is below one child only. */
  lemma {:induction false} OneKidOnly(t: Shape, j: nat, a: nat, b: nat, i: nat)
    requires Walkable(t) && j < |t.parents| && IsChild(t, a, i) && IsChild(t, b, i)
    requires Under(t, j, a) && Under(t, j, b)
    ensures a == b
    decreases t.depth[j]
  {
    if j == a {
      UnderIsDeeper(t, j, b);
      if j != b {
        UnderKidIsUnder(t, t.parents[j].value, b, i);
        assert false;
      }
    } else if j == b {
      UnderKidIsUnder(t, t.parents[j].value, a, i);
      assert false;
    } else {
      OneKidOnly(t, t.parents[j].value, a, b, i);
    }
  }

  lemma {:induction false} KidAbove(t: Shape, j: nat, i: nat) returns (c: nat)
    requires Consistent(t) && j < |t.parents| && i < |t.parents| && Under(t, j, i) && j != i
    ensures c < |t.kids[i]| && Under(t, j, t.kids[i][c])
    decreases t.depth[j]
  {
    if t.parents[j] == Some(i) {
      assert IsChild(t, j, i);
      assert Lists(t, i);
      c :| 0 <= c < |t.kids[i]| && t.kids[i][c] == j;
    } else {
      c := KidAbove(t, t.parents[j].value, i);
    }
  }

  /** Where pointers agree, the entries at and below i are visited, once each, and no others. */
  lemma {:induction false} VisitedOnce(t: Shape, i: nat, j: nat)
    requires Consistent(t) && i < |t.parents| && j < |t.parents|
    ensures Count(Visits(t, i), j) == if Under(t, j, i) then 1 else 0
    decreases t.height[i], 1, 0
  {
    assert Lists(t, i);
    CountConcat([i], VisitsBelow(t, i, |t.kids[i]|), j);
    assert [i][..0] == [];
    VisitedBelowOnce(t, i, |t.kids[i]|, j);
    if Under(t, j, i) && j != i {
      var c := KidAbove(t, j, i);
    }
    if c :| 0 <= c < |t.kids[i]| && Under(t, j, t.kids[i][c]) {
      UnderKidIsUnder(t, j, t.kids[i][c], i);
    }
  }

  lemma {:induction false} VisitedBelowOnce(t: Shape, i: nat, n: nat, j: nat)
    requires Consistent(t) && i < |t.parents| && j < |t.parents| && n <= |t.kids[i]|
    ensures Count(VisitsBelow(t, i, n), j) == if BelowFirst(t, j, i, n) then 1 else 0
    decreases t.height[i], 0, n
  {
    if n > 0 {
      assert Lists(t, i);
      var kid := t.kids[i][n - 1];
      VisitedBelowOnce(t, i, n - 1, j);
      VisitedOnce(t, kid, j);
      CountConcat(VisitsBelow(t, i, n - 1), Visits(t, kid), j);
      if c :| 0 <= c < n - 1 && Under(t, j, t.kids[i][c]) && Under(t, j, kid) {
        OneKidOnly(t, j, t.kids[i][c], kid, i);
      }
    }
  }

  /** Entry j is at or below one of the first n children of i. */
  predicate BelowFirst(t: Shape, j: nat, i: nat, n: nat)
    requires Walkable(t) && j < |t.parents| && i < |t.parents| && n <= |t.kids[i]|
  {
    exists c {:trigger t.kids[i][c]} :: 0 <= c < n && Under(t, j, t.kids[i][c])
  }

  /** Exactly the paths at and below i are extended, once each. */
  lemma BuiltOnce(t: Shape, i: nat, paths: seq<string>, j: nat)
    requires Consistent(t) && i < |t.parents| && j < |t.parents| == |paths|
    ensures After(t, Visits(t, i), paths)[j] == if Under(t, j, i) then paths[j] + PathTo(t, j) else paths[j]
  {
    AfterAddsPaths(t, Visits(t, i), paths, j);
    VisitedOnce(t, i, j);
    var p := PathTo(t, j);
    assert Repeated(p, 1) == Repeated(p, 0) + p == p;
    assert paths[j] + "" == paths[j];
  }

  // ----- When every path is extended at most once

  /** Entry j is i, or children lead from i to it. */
  predicate Down(t: Shape, i: nat, j: nat)
    requires Walkable(t) && i < |t.kids|
    decreases t.height[i]
  {
    i == j || exists c {:trigger t.kids[i][c]} :: 0 <= c < |t.kids[i]| && Down(t, t.kids[i][c], j)
  }

  /** The visits are of exactly the entries that children lead to. */
  lemma {:induction false} VisitedIffDown(t: Shape, i: nat, j: nat)
    requires Walkable(t) && i < |t.kids|
    ensures j in Visits(t, i) <==> Down(t, i, j)
    ensures Down(t, i, j) ==> j < |t.height| && t.height[j] <= t.height[i]
    decreases t.height[i], 1, 0
  {
    VisitedBelowIffDown(t, i, |t.kids[i]|, j);
    forall c {:trigger t.kids[i][c]} | 0 <= c < |t.kids[i]|
      ensures Down(t, t.kids[i][c], j) ==> j < |t.height| && t.height[j] <= t.height[i]
    {
      VisitedIffDown(t, t.kids[i][c], j);
    }
  }

  lemma {:induction false} VisitedBelowIffDown(t: Shape, i: nat, n: nat, j: nat)
    requires Walkable(t) && i < |t.kids| && n <= |t.kids[i]|
    ensures j in VisitsBelow(t, i, n) <==> exists c {:trigger t.kids[i][c]} :: 0 <= c < n && Down(t, t.kids[i][c], j)
    decreases t.height[i], 0, n
  {
    if n > 0 {
      VisitedBelowIffDown(t, i, n - 1, j);
      VisitedIffDown(t, t.kids[i][n - 1], j);
    }
  }

  /** Place c of a and place d of b, both reached from i, are different places of one entry. */
  predicate ListedTwiceAt(t: Shape, i: nat, a: nat, c: nat, b: nat, d: nat)
    requires Walkable(t) && i < |t.kids|
  {
    && a < |t.kids| && b < |t.kids| && Down(t, i, a) && Down(t, i, b)
    && c < |t.kids[a]| && d < |t.kids[b]| && (a != b || c != d)
    && t.kids[a][c] == t.kids[b][d]
  }

  /** Some entry stands twice in the children lists of the entries reached from i. */
  ghost predicate ListedTwice(t: Shape, i: nat)
    requires Walkable(t) && i < |t.kids|
  {
    exists a: nat, c: nat, b: nat, d: nat :: ListedTwiceAt(t, i, a, c, b, d)
  }

  /** How often these visits list x as a child. */
  function Listings(t: Shape, order: seq<nat>, x: nat): nat
    requires Walkable(t) && InRange(t, order)
  {
    if order == [] then 0
    else Listings(t, order[..|order| - 1], x) + Count(t.kids[order[|order| - 1]], x)
  }

  lemma {:induction false} ListingsConcat(t: Shape, a: seq<nat>, b: seq<nat>, x: nat)
    requires Walkable(t) && InRange(t, a) && InRange(t, b)
    ensures InRange(t, a + b)
    ensures Listings(t, a + b, x) == Listings(t, a, x) + Listings(t, b, x)
    decreases |b|
  {
    if b == [] {
      assert a + b == a;
    } else {
      var last := |b| - 1;
      assert (a + b)[..|a + b| - 1] == a + b[..last];
      ListingsConcat(t, a, b[..last], x);
    }
  }

  /** An entry is visited once as the start, and once for every time it is listed. */
  lemma {:induction false} VisitsAreListings(t: Shape, i: nat, x: nat)
    requires Walkable(t) && i < |t.kids|
    ensures Count(Visits(t, i), x) == (if i == x then 1 else 0) + Listings(t, Visits(t, i), x)
    decreases t.height[i], 1, 0
  {
    var below := VisitsBelow(t, i, |t.kids[i]|);
    CountConcat([i], below, x);
    assert [i][..0] == [];
    ListingsConcat(t, [i], below, x);
    VisitsBelowAreListings(t, i, |t.kids[i]|, x);
    assert t.kids[i][..|t.kids[i]|] == t.kids[i];
  }

  lemma {:induction false} VisitsBelowAreListings(t: Shape, i: nat, n: nat, x: nat)
    requires Walkable(t) && i < |t.kids| && n <= |t.kids[i]|
    ensures Count(VisitsBelow(t, i, n), x) == Count(t.kids[i][..n], x) + Listings(t, VisitsBelow(t, i, n), x)
    decreases t.height[i], 0, n
  {
    if n > 0 {
      var kid := t.kids[i][n - 1];
      VisitsBelowAreListings(t, i, n - 1, x);
      VisitsAreListings(t, kid, x);
      CountConcat(VisitsBelow(t, i, n - 1), Visits(t, kid), x);
      ListingsConcat(t, VisitsBelow(t, i, n - 1), Visits(t, kid), x);
      assert t.kids[i][..n][..n - 1] == t.kids[i][..n - 1];
    }
  }

  /** Two listings are by one entry that lists twice, or by two visits that list. */
  lemma {:induction false} TwoListings(t: Shape, order: seq<nat>, x: nat) returns (p: nat, q: nat)
    requires Walkable(t) && InRange(t, order) && Listings(t, order, x) >= 2
    ensures p <= q < |order|
    ensures Count(t.kids[order[p]], x) >= (if p == q then 2 else 1) && Count(t.kids[order[q]], x) >= 1
  {
    var last := |order| - 1;
    var lists := Count(t.kids[order[last]], x);
    if lists >= 2 {
      p, q := last, last;
    } else if lists == 1 {
      q := last;
      p := OneListing(t, order[..last], x);
    } else {
      p, q := TwoListings(t, order[..last], x);
    }
  }

  lemma {:induction false} OneListing(t: Shape, order: seq<nat>, x: nat) returns (p: nat)
    requires Walkable(t) && InRange(t, order) && Listings(t, order, x) >= 1
    ensures p < |order| && Count(t.kids[order[p]], x) >= 1
  {
    var last := |order| - 1;
    p := last;
    if Count(t.kids[order[last]], x) == 0 {
      p := OneListing(t, order[..last], x);
    }
  }

  lemma {:induction false} ListingsAtLeast(t: Shape, order: seq<nat>, x: nat, p: nat)
    requires Walkable(t) && InRange(t, order) && p < |order|
    ensures Listings(t, order, x) >= Count(t.kids[order[p]], x)
  {
    if p < |order| - 1 {
      ListingsAtLeast(t, order[..|order| - 1], x, p);
    }
  }

  lemma {:induction false} ListingsAtLeastBoth(t: Shape, order: seq<nat>, x: nat, p: nat, q: nat)
    requires Walkable(t) && InRange(t, order) && p < q < |order|
    ensures Listings(t, order, x) >= Count(t.kids[order[p]], x) + Count(t.kids[order[q]], x)
  {
    var last := |order| - 1;
    if q < last {
      ListingsAtLeastBoth(t, order[..last], x, p, q);
    } else {
      ListingsAtLeast(t, order[..last], x, p);
    }
  }

  /** What is listed twice is visited twice. */
  lemma ListedTwiceIsVisitedTwice(t: Shape, i: nat, a: nat, c: nat, b: nat, d: nat)
    requires Walkable(t) && i < |t.kids| && ListedTwiceAt(t, i, a, c, b, d)
    ensures Count(Visits(t, i), t.kids[a][c]) >= 2
  {
    var order, x := Visits(t, i), t.kids[a][c];
    VisitedIffDown(t, i, a);
    VisitedIffDown(t, i, b);
    var p :| 0 <= p < |order| && order[p] == a;
    var q :| 0 <= q < |order| && order[q] == b;
    CountIn(t.kids[a], x);
    CountIn(t.kids[b], x);
    if a == b {
      CountTwice(t.kids[a], x, if c < d then c else d, if c < d then d else c);
      ListingsAtLeast(t, order, x, p);
    } else {
      ListingsAtLeastBoth(t, order, x, if p < q then p else q, if p < q then q else p);
    }
    VisitsAreListings(t, i, x);
  }

  /** What is visited twice is listed twice, or one of those above it is. */
  lemma {:induction false} VisitedTwiceIsListedTwice(t: Shape, i: nat, x: nat)
    requires Walkable(t) && i < |t.kids| && Count(Visits(t, i), x) >= 2
    ensures ListedTwice(t, i)
    decreases if x < |t.height| && t.height[x] <= t.height[i] then t.height[i] - t.height[x] else 0
  {
    var order := Visits(t, i);
    CountIn(order, x);
    VisitedIffDown(t, i, x);
    VisitsAreListings(t, i, x);
    if x == i {
      var p := OneListing(t, order, x);
      CountIn(t.kids[order[p]], x);
      var c :| 0 <= c < |t.kids[order[p]]| && t.kids[order[p]][c] == x;
      VisitedIffDown(t, i, order[p]);
      assert false;
    } else {
      var p, q := TwoListings(t, order, x);
      var a, b := order[p], order[q];
      assert a in order && b in order;
      VisitedIffDown(t, i, a);
      VisitedIffDown(t, i, b);
      if p == q {
        var c, d := CountTwoPlaces(t.kids[a], x);
        assert ListedTwiceAt(t, i, a, c, a, d);
      } else {
        CountIn(t.kids[a], x);
        var c :| 0 <= c < |t.kids[a]| && t.kids[a][c] == x;
        if a == b {
          CountTwice(order, a, p, q);
          VisitedTwiceIsListedTwice(t, i, a);
        } else {
          CountIn(t.kids[b], x);
          var d :| 0 <= d < |t.kids[b]| && t.kids[b][d] == x;
          assert ListedTwiceAt(t, i, a, c, b, d);
        }
      }
    }
  }

  /** Every entry is visited at most once if and only if no entry stands twice in the children
      lists that are reached, wherever its parent pointer leads. */
  lemma VisitedAtMostOnceIff(t: Shape, i: nat)
    requires Walkable(t) && i < |t.kids|
    ensures (forall x :: Count(Visits(t, i), x) <= 1) <==> !ListedTwice(t, i)
  {
    if x: nat :| Count(Visits(t, i), x) >= 2 {
      VisitedTwiceIsListedTwice(t, i, x);
    }
    if ListedTwice(t, i) {
      var a: nat, c: nat, b: nat, d: nat :| ListedTwiceAt(t, i, a, c, b, d);
      ListedTwiceIsVisitedTwice(t, i, a, c, b, d);
    }
  }

  /** So where no entry is listed twice, exactly the paths of the entries that children lead
      to are extended, once each. */
  lemma BuiltOnceUnlessListedTwice(t: Shape, i: nat, paths: seq<string>, j: nat)
    requires Walkable(t) && i < |t.parents| && j < |t.parents| == |paths|
    requires !ListedTwice(t, i)
    ensures After(t, Visits(t, i), paths)[j] == if Down(t, i, j) then paths[j] + PathTo(t, j) else paths[j]
  {
    AfterAddsPaths(t, Visits(t, i), paths, j);
    VisitedAtMostOnceIff(t, i);
    VisitedIffDown(t, i, j);
    CountIn(Visits(t, i), j);
    FewTimes(PathTo(t, j));
    assert paths[j] + "" == paths[j];
  }

  lemma FewTimes(p: string)
    ensures Repeated(p, 0) == "" && Repeated(p, 1) == p && Repeated(p, 2) == p + p
  {
    assert Repeated(p, 1) == Repeated(p, 0) + p == p;
  }

  /** Every entry but the first has a parent. */
  predicate OneRoot(t: Shape) {
    |t.parents| > 0 && forall k {:trigger t.parents[k]} :: 0 < k < |t.parents| ==> t.parents[k].Some?
  }

  lemma {:induction false} AllUnderRoot(t: Shape, j: nat)
    requires Walkable(t) && OneRoot(t) && t.parents[0].None? && j < |t.parents|
    ensures Under(t, j, 0)
    decreases t.depth[j]
  {
    if j > 0 {
      AllUnderRoot(t, t.parents[j].value);
    }
  }

  lemma PathOfParent(t: Shape, j: nat)
    requires Walkable(t) && OneRoot(t) && t.parents[0].None? && 0 < j < |t.parents|
    ensures var p := t.parents[j].value;
      && p < |t.parents|
      && PathTo(t, j) == (if t.names[p] == "" then PathTo(t, p) else PathTo(t, p) + "\\" + t.names[p])
      && PathTo(t, 0) == ""
  {
    var p := t.parents[j].value;
    assert PathTo(t, p) + "" == PathTo(t, p);
    assert PathTo(t, p) + ("\\" + t.names[p]) == PathTo(t, p) + "\\" + t.names[p];
  }

  /** Called at the root of a tree, it leaves an entry with an empty path at its own path. */
  lemma BuiltFromRoot(t: Shape, paths: seq<string>, j: nat)
    requires Consistent(t) && OneRoot(t) && t.parents[0].None? && j < |t.parents| == |paths|
    requires paths[j] == ""
    ensures After(t, Visits(t, 0), paths)[j] == PathTo(t, j)
  {
    AllUnderRoot(t, j);
    hide Visits, After, Consistent, OneRoot, Walkable, PathTo, Under;
    BuiltOnce(t, 0, paths, j);
    assert "" + PathTo(t, j) == PathTo(t, j);
  }

  /** Called at the root of a tree with empty paths, it leaves every entry with its parent's
      path and one more step, the parent's name. */
  lemma EveryPathContinuesItsParents(t: Shape, paths: seq<string>, j: nat)
    requires Consistent(t) && OneRoot(t) && t.parents[0].None? && 0 < j < |t.parents| == |paths|
    requires forall k :: 0 <= k < |paths| ==> paths[k] == ""
    ensures var built, p := After(t, Visits(t, 0), paths), t.parents[j].value;
      && built[j] == (if t.names[p] == "" then built[p] else built[p] + "\\" + t.names[p])
      && built[0] == ""
  {
    PathOfParent(t, j);
    hide Visits, After, OneRoot, PathTo, Under;
    BuiltFromRoot(t, paths, j);
    BuiltFromRoot(t, paths, t.parents[j].value);
    BuiltFromRoot(t, paths, 0);
  }

  /** Entry 3 is listed under entries 1 and 2. */
  function Shared(): (t: Shape)
    ensures Walkable(t) && |t.parents| == 4
  {
    Shape(["", "a", "b", "x"], [None, Some(0), Some(0), Some(1)], [[1, 2], [3], [3], []], [0, 1, 1, 2], [2, 1, 1, 0])
  }

  lemma SharedVisits(t: Shape)
    requires t == Shared()
    ensures Visits(t, 0) == [0, 1, 3, 2, 3]
  {
    assert Visits(t, 3) == [3] + VisitsBelow(t, 3, 0) == [3];
    assert Visits(t, 1) == [1] + VisitsBelow(t, 1, 1) && VisitsBelow(t, 1, 1) == VisitsBelow(t, 1, 0) + [3];
    assert Visits(t, 2) == [2] + VisitsBelow(t, 2, 1) && VisitsBelow(t, 2, 1) == VisitsBelow(t, 2, 0) + [3];
    assert VisitsBelow(t, 0, 1) == VisitsBelow(t, 0, 0) + [1, 3];
    assert VisitsBelow(t, 0, 2) == VisitsBelow(t, 0, 1) + [2, 3];
  }

  lemma SharedPath(t: Shape)
    requires t == Shared()
    ensures PathTo(t, 3) == "\\a"
  {
    assert PathTo(t, 0) == "";
    assert PathTo(t, 1) == PathTo(t, 0) + Step("") == "";
    assert PathTo(t, 3) == PathTo(t, 1) + Step("a");
  }

  /** It is visited twice, and so its path is there twice. */
  lemma SharedEntryIsExtendedTwice(paths: seq<string>)
    requires |paths| == 4 && paths[3] == ""
    ensures After(Shared(), Visits(Shared(), 0), paths)[3] == "\\a\\a"
  {
    hide Visits, After, PathTo, Shared, Count;
    var t := Shared();
    SharedVisits(t);
    SharedPath(t);
    AfterAddsPaths(t, Visits(t, 0), paths, 3);
    var p := PathTo(t, 3);
    FewTimes(p);
    var order := Visits(t, 0);
    TwiceInFive(order);
    assert After(t, order, paths)[3] == "" + Repeated(p, 2);
    assert After(t, order, paths)[3] == p + p;
    assert p + p == "\\a\\a";
  }

  lemma TwiceInFive(order: seq<nat>)
    requires order == [0, 1, 3, 2, 3]
    ensures Count(order, 3) == 2
  {
    var start := order[..2];
    CountIn(start, 3);
    assert order[..3][..2] == start && order[..4][..3] == order[..3];
    assert Count(order[..3], 3) == 1;
    assert Count(order[..4], 3) == 1;
  }

  // ----- The entries on the heap

  class FileDirEntry {
    var name: string
    var path: string
    var parent: FileDirEntry?
    var children: seq<FileDirEntry>

    ghost const slot: nat

    constructor (name: string, ghost slot: nat)
      ensures this.name == name && path == "" && parent == null && children == [] && this.slot == slot
    {
      this.name, path, parent, children, this.slot := name, "", null, [], slot;
    }

    /** This entry is entry i of the shape. */
    ghost predicate Spells(nodes: seq<FileDirEntry>, t: Shape, i: nat)
      requires |nodes| == |t.names| == |t.parents| == |t.kids| && i < |nodes|
      reads this`name, this`parent, this`children
    {
      && slot == i && name == t.names[i]
      && (parent == null <==> t.parents[i] == None)
      && (t.parents[i].Some? ==> t.parents[i].value < |nodes| && parent == nodes[t.parents[i].value])
      && |children| == |t.kids[i]|
      && forall c {:trigger t.kids[i][c]} :: 0 <= c < |children| ==>
           t.kids[i][c] < |nodes| && children[c] == nodes[t.kids[i][c]]
    }

    /** Collects the names on the way up, nearest first. */
    method CollectNames(ghost nodes: seq<FileDirEntry>, ghost t: Shape) returns (paths: seq<string>)
      requires Walkable(t) && Drawn(nodes, t) && slot < |nodes| && nodes[slot] == this
      ensures paths == NamesAbove(t, slot)
    {
      var above := parent;
      paths := [];
      ghost var at := slot;
      assert Spelled(nodes, t, at);
      while above != null
        invariant 0 <= at < |nodes| && above == nodes[at].parent && Spelled(nodes, t, at)
        invariant NamesAbove(t, slot) == paths + NamesAbove(t, at)
        decreases t.depth[at]
      {
        at := t.parents[at].value;
        assert Spelled(nodes, t, at);
        paths := paths + [above.name];
        above := above.parent;
      }
    }

    /** Joins the names the other way round, without the empty ones. */
    method ExtendPath(paths: seq<string>)
      modifies this`path
      ensures path == old(path) + Joined(paths, 0)
    {
      ghost var start := path;
      JoinedEnds(start, paths);
      hide Joined, Step;
      for idx := 0 to |paths|
        invariant path == start + Joined(paths, |paths| - idx)
      {
        var name := paths[|paths| - idx - 1];
        JoinedOneMore(start, paths, |paths| - idx - 1);
        if name != "" {
          path := path + ("\\" + name);
        }
      }
    }

    /** Gives this entry its own path. */
    method BuildOwnPath(ghost nodes: seq<FileDirEntry>, ghost t: Shape)
      requires Walkable(t) && Drawn(nodes, t) && slot < |nodes| && nodes[slot] == this
      modifies this`path
      ensures PathsOf(nodes) == After(t, [slot], old(PathsOf(nodes)))
    {
      hide PathTo, NamesAbove, Joined;
      ghost var before := PathsOf(nodes);
      var paths := CollectNames(nodes, t);
      WalkingUpAgrees(t, slot);
      ExtendPath(paths);
      OthersUntouched(nodes, t);
      assert PathsOf(nodes) == before[slot := before[slot] + PathTo(t, slot)];
      OneVisit(t, slot, before);
    }

    /** Extends the path of this entry and then those of its children and what they lead to. */
    method BuildPath(ghost nodes: seq<FileDirEntry>, ghost t: Shape)
      requires Walkable(t) && Drawn(nodes, t) && slot < |nodes| && nodes[slot] == this
      modifies nodes`path
      ensures PathsOf(nodes) == After(t, Visits(t, slot), old(PathsOf(nodes)))
      decreases t.height[slot]
    {
      hide After, Visits, VisitsSoFar, PathTo, InRange;
      ghost var before := PathsOf(nodes);
      BuildOwnPath(nodes, t);
      assert Spelled(nodes, t, slot);
      NoKids(t, slot, before);
      for idx := 0 to |children|
        invariant PathsOf(nodes) == After(t, VisitsSoFar(t, slot, idx), before)
      {
        KidOf(nodes, t, slot, idx);
        children[idx].BuildPath(nodes, t);
        NextKid(t, slot, idx, before);
      }
      AllKids(t, slot);
    }
  }

  lemma OneVisit(t: Shape, i: nat, paths: seq<string>)
    requires Walkable(t) && i < |t.parents| == |paths|
    ensures After(t, [i], paths) == paths[i := paths[i] + PathTo(t, i)]
  {
    assert [i][..0] == [];
  }

  /** The visits of i itself and of what its first n children lead to. */
  function VisitsSoFar(t: Shape, i: nat, n: nat): (order: seq<nat>)
    requires Walkable(t) && i < |t.parents| && n <= |t.kids[i]|
    ensures InRange(t, order)
  {
    [i] + VisitsBelow(t, i, n)
  }

  lemma NoKids(t: Shape, i: nat, paths: seq<string>)
    requires Walkable(t) && i < |t.parents| == |paths|
    ensures After(t, [i], paths) == After(t, VisitsSoFar(t, i, 0), paths)
  {
    assert VisitsSoFar(t, i, 0) == [i];
  }

  /** Going on with the next child goes on with the order of visits. */
  lemma NextKid(t: Shape, i: nat, n: nat, paths: seq<string>)
    requires Walkable(t) && i < |t.parents| == |paths| && n < |t.kids[i]|
    ensures After(t, Visits(t, t.kids[i][n]), After(t, VisitsSoFar(t, i, n), paths))
         == After(t, VisitsSoFar(t, i, n + 1), paths)
  {
    hide After, Visits;
    AfterConcat(t, VisitsSoFar(t, i, n), Visits(t, t.kids[i][n]), paths);
    assert VisitsSoFar(t, i, n + 1) == VisitsSoFar(t, i, n) + Visits(t, t.kids[i][n]);
  }

  lemma AllKids(t: Shape, i: nat)
    requires Walkable(t) && i < |t.parents|
    ensures Visits(t, i) == VisitsSoFar(t, i, |t.kids[i]|)
  {
  }

  lemma OthersUntouched(nodes: seq<FileDirEntry>, t: Shape)
    requires Drawn(nodes, t)
    ensures forall i, j :: 0 <= i < j < |nodes| ==> nodes[i] != nodes[j]
  {
    forall i, j | 0 <= i < j < |nodes| ensures nodes[i] != nodes[j] {
      assert Spelled(nodes, t, i) && Spelled(nodes, t, j);
    }
  }

  lemma KidOf(nodes: seq<FileDirEntry>, t: Shape, i: nat, c: nat)
    requires Walkable(t) && Drawn(nodes, t) && i < |nodes| && c < |t.kids[i]|
    ensures var kid := t.kids[i][c];
      && kid < |nodes| && t.height[kid] < t.height[i]
      && nodes[kid].slot == kid
      && |nodes[i].children| == |t.kids[i]| && nodes[i].children[c] == nodes[kid]
  {
    assert Spelled(nodes, t, i) && t.kids[i][c] < |nodes|;
    assert Spelled(nodes, t, t.kids[i][c]);
  }

  ghost predicate Spelled(nodes: seq<FileDirEntry>, t: Shape, i: nat)
    requires |nodes| == |t.names| == |t.parents| == |t.kids|
    reads nodes`name, nodes`parent, nodes`children
  {
    i < |nodes| ==> nodes[i].Spells(nodes, t, i)
  }

  /** The pointers of the entries spell out the shape. */
  ghost predicate Drawn(nodes: seq<FileDirEntry>, t: Shape)
    reads nodes`name, nodes`parent, nodes`children
  {
    && |nodes| == |t.names| == |t.parents| == |t.kids|
    && forall i {:trigger Spelled(nodes, t, i)} :: 0 <= i < |nodes| ==> Spelled(nodes, t, i)
  }

  ghost function PathsOf(nodes: seq<FileDirEntry>): (paths: seq<string>)
    reads nodes
    ensures |paths| == |nodes|
    ensures forall i :: 0 <= i < |nodes| ==> paths[i] == nodes[i].path
  {
    seq(|nodes|, i requires 0 <= i < |nodes| reads nodes => nodes[i].path)
  }
}

/** The range-indexed directory tree as a value: one slot per node, in order of creation.
    A slot names its parent by slot number.  The parent of every slot but the first has a
    smaller number, so the links cannot form a cycle; the children of a slot are the slots
    that name it, in order of creation. */
module DirectoryTreeModel {
  import opened Machine
  import opened Sequences

  datatype FileName = FileName(parRef: uint64, parSeq: uint16)

  datatype Record = Record(entry: uint32, seqNo: uint16, flags: uint16, fileName: Option<FileName>)

  datatype Slot = Slot(record: Record, parent: int, lo: uint32, hi: uint32)

  type State = seq<Slot>

  predicate IsFolder(r: Record) {
    r.flags == 2 || r.flags == 3
  }

  /** The file name of r refers to this parent: same entry at 64 bits, and a sequence
      number that was reused at most once since. */
  predicate IsChild(parent: Record, r: Record) {
    && r.fileName.Some?
    && parent.entry == r.fileName.value.parRef
    && Sub16(parent.seqNo, r.fileName.value.parSeq) < 2
  }

  // ----- Well-formed states

  ghost predicate ParentsFirst(s: State) {
    forall i {:trigger s[i].parent} :: 0 <= i < |s| ==> -1 <= s[i].parent < i && (s[i].parent == -1 <==> i == 0)
  }

  ghost predicate ParentsAreFolders(s: State)
    requires ParentsFirst(s)
  {
    forall j {:trigger s[j].parent} :: 0 < j < |s| ==> IsFolder(s[s[j].parent].record)
  }

  ghost predicate Linked(s: State) {
    ParentsFirst(s) && ParentsAreFolders(s)
  }

  /** The children of slot i among the first n slots. */
  ghost function KidsAmong(s: State, i: int, n: nat): (kids: seq<nat>)
    requires n <= |s|
    ensures forall c {:trigger kids[c]} :: 0 <= c < |kids| ==> kids[c] < n && s[kids[c]].parent == i
  {
    if n == 0 then []
    else KidsAmong(s, i, n - 1) + if s[n - 1].parent == i then [n - 1] else []
  }

  ghost function Kids(s: State, i: int): (kids: seq<nat>)
    ensures forall c {:trigger kids[c]} :: 0 <= c < |kids| ==> kids[c] < |s| && s[kids[c]].parent == i
  {
    KidsAmong(s, i, |s|)
  }

  /** Slot i is j or an ancestor of j. */
  ghost predicate Above(s: State, i: int, j: int)
    requires ParentsFirst(s)
    decreases j
  {
    0 <= j < |s| && (i == j || Above(s, i, s[j].parent))
  }

  /** The cached range of a slot below the root is the exact range of its subtree. */
  ghost predicate ExactRange(s: State, i: nat)
    requires ParentsFirst(s) && i < |s|
  {
    && (forall j {:trigger Above(s, i, j)} :: Above(s, i, j) ==> s[i].lo <= s[j].record.entry <= s[i].hi)
    && (exists j {:trigger Above(s, i, j)} :: Above(s, i, j) && s[j].record.entry == s[i].lo)
    && (exists j {:trigger Above(s, i, j)} :: Above(s, i, j) && s[j].record.entry == s[i].hi)
  }

  /** The root starts at 0..0 and does not count itself. */
  ghost predicate RootRange(s: State)
    requires 0 < |s|
  {
    && s[0].lo == 0
    && (forall j :: 0 < j < |s| ==> s[j].record.entry <= s[0].hi)
    && (s[0].hi == 0 || exists j :: 0 < j < |s| && s[j].record.entry == s[0].hi)
  }

  ghost predicate Ranged(s: State)
    requires ParentsFirst(s)
  {
    && (forall i :: 0 < i < |s| ==> ExactRange(s, i))
    && (|s| > 0 ==> RootRange(s))
  }

  ghost predicate Good(s: State) {
    Linked(s) && Ranged(s)
  }

  // ----- Operations

  function Widened(slot: Slot, entry: uint32): Slot {
    slot.(lo := if slot.lo > entry then entry else slot.lo,
          hi := if slot.hi < entry then entry else slot.hi)
  }

  /** The walk from slot k up to the root. */
  ghost function WidenUp(s: State, k: int, entry: uint32): (t: State)
    requires ParentsFirst(s) && -1 <= k < |s|
    ensures |t| == |s| && forall i {:trigger t[i]} :: 0 <= i < |s| ==> t[i].parent == s[i].parent
    decreases k
  {
    if k == -1 then s
    else
      WidenUp(s[k := Widened(s[k], entry)], s[k].parent, entry)
  }

  /** A new leaf for r becomes the last child of slot k. */
  ghost function Attach(s: State, k: nat, r: Record): (t: State)
    requires ParentsFirst(s) && k < |s|
    ensures |t| == |s| + 1 && ParentsFirst(t)
  {
    WidenUp(s, k, r.entry) + [Slot(r, k, r.entry, r.entry)]
  }

  ghost function AttachAll(s: State, points: seq<nat>, r: Record): (t: State)
    requires ParentsFirst(s) && forall i :: 0 <= i < |points| ==> points[i] < |s|
    ensures |t| == |s| + |points| && ParentsFirst(t)
    decreases |points|
  {
    if points == [] then s
    else
      var last := |points| - 1;
      Attach(AttachAll(s, points[..last], r), points[last], r)
  }

  /** Where an exhaustive descent from slot k attaches r.  It never looks at a range. */
  ghost function Points(s: State, k: nat, r: Record): (points: seq<nat>)
    requires ParentsFirst(s) && k < |s|
    ensures forall i :: 0 <= i < |points| ==> points[i] < |s|
    decreases |s| - k, 1, 0
  {
    if !IsFolder(s[k].record) || r.fileName.None? then []
    else if IsChild(s[k].record, r) then [k]
    else PointsBelow(s, k, |Kids(s, k)|, r)
  }

  /** The same for the first n children of slot k. */
  ghost function PointsBelow(s: State, k: nat, n: nat, r: Record): (points: seq<nat>)
    requires ParentsFirst(s) && k < |s| && n <= |Kids(s, k)|
    ensures forall i :: 0 <= i < |points| ==> points[i] < |s|
    decreases |s| - k, 0, n
  {
    if n == 0 then []
    else PointsBelow(s, k, n - 1, r) + Points(s, Kids(s, k)[n - 1], r)
  }

  /** The state after an exhaustive descent from slot k has attached r everywhere it belongs. */
  ghost function Inserted(s: State, k: nat, r: Record): (t: State)
    requires ParentsFirst(s) && k < |s|
    ensures |s| <= |t| && ParentsFirst(t)
  {
    AttachAll(s, Points(s, k, r), r)
  }

  /** The same for the first n children of slot k. */
  ghost function InsertedBelow(s: State, k: nat, n: nat, r: Record): (t: State)
    requires ParentsFirst(s) && k < |s| && n <= |Kids(s, k)|
    ensures |s| <= |t| && ParentsFirst(t)
  {
    AttachAll(s, PointsBelow(s, k, n, r), r)
  }

  // ----- Ancestry and children

  lemma {:induction false} AboveIsSmaller(s: State, i: int, j: int)
    requires ParentsFirst(s) && Above(s, i, j)
    ensures 0 <= i <= j < |s|
    decreases j
  {
    if i != j {
      AboveIsSmaller(s, i, s[j].parent);
    }
  }

  lemma {:induction false} AboveTrans(s: State, i: int, j: int, m: int)
    requires ParentsFirst(s) && Above(s, i, j) && Above(s, j, m)
    ensures Above(s, i, m)
    decreases m
  {
    if j != m {
      AboveTrans(s, i, j, s[m].parent);
    }
  }

  /** Ancestors of one slot are ancestors of each other. */
  lemma {:induction false} AboveChain(s: State, i: int, j: int, m: int)
    requires ParentsFirst(s) && Above(s, i, m) && Above(s, j, m) && i <= j
    ensures Above(s, i, j)
    decreases m
  {
    AboveIsSmaller(s, i, m);
    AboveIsSmaller(s, j, m);
    if j != m && i != m {
      AboveChain(s, i, j, s[m].parent);
    }
  }

  lemma {:induction false} AboveRoot(s: State, j: nat)
    requires ParentsFirst(s) && j < |s|
    ensures Above(s, 0, j)
    decreases j
  {
    if j != 0 {
      AboveRoot(s, s[j].parent);
    }
  }

  /** Ancestry only depends on the parent links. */
  lemma {:induction false} SameAbove(s: State, t: State, i: int, j: int)
    requires ParentsFirst(s) && ParentsFirst(t) && j < |s| <= |t|
    requires forall m {:trigger t[m]} :: 0 <= m < |s| ==> t[m].parent == s[m].parent
    ensures Above(t, i, j) == Above(s, i, j)
    decreases j
  {
    if 0 <= j && i != j {
      assert t[j].parent == s[j].parent;
      SameAbove(s, t, i, s[j].parent);
    }
  }

  /** So do the children. */
  lemma {:induction false} SameKids(s: State, t: State, i: int, n: nat)
    requires n <= |s| && n <= |t|
    requires forall m {:trigger t[m]} :: 0 <= m < n ==> t[m].parent == s[m].parent
    ensures KidsAmong(t, i, n) == KidsAmong(s, i, n)
  {
    if n > 0 {
      assert t[n - 1].parent == s[n - 1].parent;
      SameKids(s, t, i, n - 1);
    }
  }

  lemma {:induction false} KidsAscend(s: State, i: int, n: nat, c: nat, d: nat)
    requires n <= |s| && c < d < |KidsAmong(s, i, n)|
    ensures KidsAmong(s, i, n)[c] < KidsAmong(s, i, n)[d]
  {
    var kids := KidsAmong(s, i, n - 1);
    if d < |kids| {
      KidsAscend(s, i, n - 1, c, d);
    } else {
      assert kids[c] < n - 1;
    }
  }

  lemma {:induction false} KidsAreAll(s: State, n: nat, j: nat) returns (c: nat)
    requires j < n <= |s|
    ensures c < |KidsAmong(s, s[j].parent, n)| && KidsAmong(s, s[j].parent, n)[c] == j
  {
    if j == n - 1 {
      c := |KidsAmong(s, s[j].parent, n - 1)|;
    } else {
      c := KidsAreAll(s, n - 1, j);
    }
  }

  lemma {:induction false} NoKids(s: State, i: int, n: nat)
    requires n <= |s| && forall j :: 0 <= j < n ==> s[j].parent < i
    ensures KidsAmong(s, i, n) == []
  {
    if n > 0 {
      NoKids(s, i, n - 1);
    }
  }

  lemma KidIsBelow(s: State, k: nat, c: nat)
    requires ParentsFirst(s) && k < |s| && c < |Kids(s, k)|
    ensures Above(s, k, Kids(s, k)[c]) && Kids(s, k)[c] > k
  {
    assert s[Kids(s, k)[c]].parent == k;
    assert Above(s, k, k);
  }

  /** Strictly below k means at or below a child of k. */
  lemma {:induction false} BelowAKid(s: State, k: nat, p: int) returns (c: nat)
    requires ParentsFirst(s) && Above(s, k, p) && p != k
    ensures k < |s| && c < |Kids(s, k)| && Above(s, Kids(s, k)[c], p)
    decreases p
  {
    AboveIsSmaller(s, k, p);
    if s[p].parent == k {
      c := KidsAreAll(s, |s|, p);
    } else {
      c := BelowAKid(s, k, s[p].parent);
    }
  }

  /** And the child is unique. */
  lemma KidsAreDisjoint(s: State, k: nat, c: nat, d: nat, p: int)
    requires ParentsFirst(s) && k < |s| && c < |Kids(s, k)| && d < |Kids(s, k)|
    requires Above(s, Kids(s, k)[c], p) && Above(s, Kids(s, k)[d], p)
    ensures c == d
  {
    if c < d {
      KidsApart(s, k, c, d, p);
    } else if d < c {
      KidsApart(s, k, d, c, p);
    }
  }

  lemma KidsApart(s: State, k: nat, c: nat, d: nat, p: int)
    requires ParentsFirst(s) && k < |s| && c < d < |Kids(s, k)|
    ensures !(Above(s, Kids(s, k)[c], p) && Above(s, Kids(s, k)[d], p))
  {
    var a, b := Kids(s, k)[c], Kids(s, k)[d];
    assert s[b].parent == k;
    KidIsBelow(s, k, c);
    KidsAscend(s, k, |s|, c, d);
    if Above(s, a, p) && Above(s, b, p) {
      AboveChain(s, a, b, p);
      AboveIsSmaller(s, a, k);
    }
  }

  // ----- One attachment

  /** What the walk changes: exactly the ranges of k and its ancestors. */
  lemma {:induction false} WidenUpIs(s: State, k: int, entry: uint32, i: nat)
    requires ParentsFirst(s) && -1 <= k < |s| && i < |s|
    ensures WidenUp(s, k, entry)[i] == if Above(s, i, k) then Widened(s[i], entry) else s[i]
    decreases k
  {
    if k >= 0 {
      var t := s[k := Widened(s[k], entry)];
      WidenUpIs(t, s[k].parent, entry, i);
      SameAbove(s, t, i, s[k].parent);
      if Above(s, i, s[k].parent) {
        AboveIsSmaller(s, i, s[k].parent);
      }
    }
  }

  /** What one attachment changes: a new last slot, and the ranges of k and its ancestors. */
  ghost predicate Attached(s: State, k: nat, r: Record, t: State)
    requires ParentsFirst(s) && k < |s|
  {
    && |t| == |s| + 1
    && t[|s|] == Slot(r, k, r.entry, r.entry)
    && forall i {:trigger t[i]} :: 0 <= i < |s| ==>
         t[i] == if Above(s, i, k) then Widened(s[i], r.entry) else s[i]
  }

  lemma AttachIs(s: State, k: nat, r: Record)
    requires ParentsFirst(s) && k < |s|
    ensures Attached(s, k, r, Attach(s, k, r))
  {
    var t := Attach(s, k, r);
    forall i | 0 <= i < |s|
      ensures t[i] == if Above(s, i, k) then Widened(s[i], r.entry) else s[i]
    {
      WidenUpIs(s, k, r.entry, i);
    }
  }

  lemma AttachKeepsParents(s: State, k: nat, r: Record, t: State)
    requires ParentsFirst(s) && k < |s| && Attached(s, k, r, t)
    ensures ParentsFirst(t)
    ensures forall i {:trigger t[i]} :: 0 <= i < |s| ==> t[i].parent == s[i].parent && t[i].record == s[i].record
  {
  }

  lemma AttachAbove(s: State, k: nat, r: Record, t: State, i: int, j: int)
    requires ParentsFirst(s) && k < |s| && Attached(s, k, r, t)
    ensures ParentsFirst(t)
    ensures j < |s| ==> Above(t, i, j) == Above(s, i, j)
    ensures i < |s| ==> Above(t, i, |s|) == Above(s, i, k)
    ensures i == |s| ==> Above(t, i, |s|)
    ensures i >= |s| && j < |s| ==> !Above(t, i, j)
  {
    AttachKeepsParents(s, k, r, t);
    if j < |s| {
      SameAbove(s, t, i, j);
      if i >= |s| && Above(t, i, j) {
        AboveIsSmaller(t, i, j);
      }
    }
    SameAbove(s, t, i, k);
    assert t[|s|].parent == k;
    assert Above(t, i, |s|) <==> i == |s| || Above(t, i, k);
  }

  lemma AttachKeepsLinked(s: State, k: nat, r: Record, t: State)
    requires Linked(s) && k < |s| && IsFolder(s[k].record) && Attached(s, k, r, t)
    ensures Linked(t)
  {
    AttachKeepsParents(s, k, r, t);
    forall j | 0 < j < |t| ensures IsFolder(t[t[j].parent].record) {
      if j < |s| {
        assert IsFolder(s[s[j].parent].record);
      }
    }
  }

  lemma AttachKeepsRange(s: State, k: nat, r: Record, t: State, i: nat)
    requires ParentsFirst(s) && k < |s| && 0 < i < |s| && Attached(s, k, r, t)
    requires ExactRange(s, i)
    ensures ParentsFirst(t) && ExactRange(t, i)
  {
    AttachKeepsParents(s, k, r, t);
    AttachAbove(s, k, r, t, i, |s|);
    forall j ensures j < |s| ==> Above(t, i, j) == Above(s, i, j) {
      AttachAbove(s, k, r, t, i, j);
    }
    var a :| Above(s, i, a) && s[a].record.entry == s[i].lo;
    var b :| Above(s, i, b) && s[b].record.entry == s[i].hi;
    assert Above(t, i, a) && Above(t, i, b);
    assert t[|s|].record == r;
    forall j | Above(t, i, j)
      ensures t[i].lo <= t[j].record.entry <= t[i].hi
    {
      if j < |s| {
        assert Above(s, i, j);
      }
    }
  }

  lemma NewLeafRange(s: State, k: nat, r: Record, t: State)
    requires ParentsFirst(s) && k < |s| && Attached(s, k, r, t)
    ensures ParentsFirst(t) && ExactRange(t, |s|)
  {
    AttachAbove(s, k, r, t, |s|, |s|);
    forall j | Above(t, |s|, j) ensures j == |s| {
      AttachAbove(s, k, r, t, |s|, j);
    }
  }

  lemma AttachKeepsRoot(s: State, k: nat, r: Record, t: State)
    requires ParentsFirst(s) && k < |s| && Attached(s, k, r, t)
    requires RootRange(s)
    ensures RootRange(t)
  {
    AboveRoot(s, k);
    assert t[|s|].record.entry == r.entry;
    if s[0].hi != 0 {
      var j :| 0 < j < |s| && s[j].record.entry == s[0].hi;
      assert t[j].record.entry == s[0].hi;
    }
  }

  lemma AttachKeepsRanges(s: State, k: nat, r: Record, t: State)
    requires ParentsFirst(s) && Ranged(s) && k < |s| && Attached(s, k, r, t)
    ensures ParentsFirst(t) && Ranged(t)
  {
    forall i | 0 < i < |t| ensures ParentsFirst(t) && ExactRange(t, i) {
      if i < |s| {
        AttachKeepsRange(s, k, r, t, i);
      } else {
        NewLeafRange(s, k, r, t);
      }
    }
    AttachKeepsRoot(s, k, r, t);
  }

  /** Attaching below any folder keeps the links consistent and every range exact. */
  lemma AttachKeepsGood(s: State, k: nat, r: Record)
    requires Good(s) && k < |s| && IsFolder(s[k].record)
    ensures Good(Attach(s, k, r))
  {
    AttachIs(s, k, r);
    AttachKeepsLinked(s, k, r, Attach(s, k, r));
    AttachKeepsRanges(s, k, r, Attach(s, k, r));
  }

  // ----- The exhaustive search, characterised

  /** Slot p is one of the topmost slots at or below k that r names as its parent. */
  ghost predicate Topmost(s: State, k: nat, p: int, r: Record)
    requires ParentsFirst(s)
  {
    && Above(s, k, p)
    && IsFolder(s[p].record)
    && IsChild(s[p].record, r)
    && forall q :: Above(s, k, q) && Above(s, q, p) && q != p ==> !IsChild(s[q].record, r)
  }

  /** The search finds exactly the topmost parents, in any linked state. */
  lemma {:induction false} PointsAreTopmost(s: State, k: nat, r: Record, p: int)
    requires Linked(s) && k < |s|
    ensures p in Points(s, k, r) <==> Topmost(s, k, p, r)
    decreases |s| - k, 1, 0
  {
    if !IsFolder(s[k].record) || r.fileName.None? {
      if Topmost(s, k, p, r) && p != k {
        var _ := BelowAKid(s, k, p);
      }
    } else if IsChild(s[k].record, r) {
      assert Above(s, k, k);
      forall q | Above(s, k, q) && Above(s, q, k) ensures q == k {
        AboveIsSmaller(s, k, q);
        AboveIsSmaller(s, q, k);
      }
    } else {
      PointsBelowAreTopmost(s, k, |Kids(s, k)|, r, p);
      if Topmost(s, k, p, r) {
        var c := BelowAKid(s, k, p);
        var kid := Kids(s, k)[c];
        forall q | Above(s, kid, q) && Above(s, q, p) && q != p ensures !IsChild(s[q].record, r) {
          KidIsBelow(s, k, c);
          AboveTrans(s, k, kid, q);
        }
        assert Topmost(s, kid, p, r);
      } else if c: nat :| c < |Kids(s, k)| && Topmost(s, Kids(s, k)[c], p, r) {
        var kid := Kids(s, k)[c];
        KidIsBelow(s, k, c);
        AboveTrans(s, k, kid, p);
        forall q | Above(s, k, q) && Above(s, q, p) && q != p ensures !IsChild(s[q].record, r) {
          if q != k {
            var d := BelowAKid(s, k, q);
            AboveTrans(s, Kids(s, k)[d], q, p);
            KidsAreDisjoint(s, k, c, d, p);
          }
        }
      }
    }
  }

  lemma {:induction false} PointsBelowAreTopmost(s: State, k: nat, n: nat, r: Record, p: int)
    requires Linked(s) && k < |s| && n <= |Kids(s, k)|
    ensures p in PointsBelow(s, k, n, r) <==> exists c: nat :: c < n && Topmost(s, Kids(s, k)[c], p, r)
    decreases |s| - k, 0, n
  {
    hide Topmost;
    if n > 0 {
      PointsBelowAreTopmost(s, k, n - 1, r, p);
      PointsAreTopmost(s, Kids(s, k)[n - 1], r, p);
    }
  }

  /** A parent below k lies in the range of k, and its entry survives the cut to 32 bits. */
  lemma ParentInRange(s: State, k: nat, r: Record, p: int)
    requires ParentsFirst(s) && k < |s| && ExactRange(s, k) && Topmost(s, k, p, r)
    ensures s[k].lo <= ToUint32(r.fileName.value.parRef) <= s[k].hi
  {
    assert ToUint32(s[p].record.entry) == s[p].record.entry;
  }

  /** Pruning is exact: a child whose range excludes the reference, cut to 32 bits,
      has nowhere to attach r, even when the cut loses bits. */
  lemma PruningIsExact(s: State, k: nat, r: Record)
    requires Good(s) && 0 < k < |s| && r.fileName.Some?
    requires !(s[k].lo <= ToUint32(r.fileName.value.parRef) <= s[k].hi)
    ensures Points(s, k, r) == []
  {
    var points := Points(s, k, r);
    if points != [] {
      PointsAreTopmost(s, k, r, points[0]);
      ParentInRange(s, k, r, points[0]);
    }
  }

  // ----- Attaching at several points

  ghost predicate AreFolders(s: State, points: seq<nat>) {
    forall i :: 0 <= i < |points| ==> points[i] < |s| && IsFolder(s[points[i]].record)
  }

  /** What all the attachments together change, ranges apart. */
  ghost predicate AttachedAll(s: State, points: seq<nat>, r: Record, t: State) {
    && |t| == |s| + |points|
    && (forall i {:trigger t[i]} :: 0 <= i < |s| ==> t[i].record == s[i].record && t[i].parent == s[i].parent)
    && (forall j {:trigger t[j]} :: |s| <= j < |t| ==> t[j].record == r && t[j].parent == points[j - |s|])
  }

  lemma {:induction false} AttachAllIs(s: State, points: seq<nat>, r: Record)
    requires ParentsFirst(s) && forall i :: 0 <= i < |points| ==> points[i] < |s|
    ensures AttachedAll(s, points, r, AttachAll(s, points, r))
    decreases |points|
  {
    if points != [] {
      var last := |points| - 1;
      var u := AttachAll(s, points[..last], r);
      AttachAllIs(s, points[..last], r);
      AttachIs(u, points[last], r);
    }
  }

  lemma {:induction false} AttachAllKeepsGood(s: State, points: seq<nat>, r: Record)
    requires Good(s) && AreFolders(s, points)
    ensures Good(AttachAll(s, points, r))
    decreases |points|
  {
    if points != [] {
      var last := |points| - 1;
      AttachAllKeepsGood(s, points[..last], r);
      AttachAllIs(s, points[..last], r);
      AttachKeepsGood(AttachAll(s, points[..last], r), points[last], r);
    }
  }

  lemma {:induction false} AttachAllConcat(s: State, a: seq<nat>, b: seq<nat>, r: Record)
    requires ParentsFirst(s)
    requires forall i :: 0 <= i < |a| ==> a[i] < |s|
    requires forall i :: 0 <= i < |b| ==> b[i] < |s|
    ensures AttachAll(s, a + b, r) == AttachAll(AttachAll(s, a, r), b, r)
    decreases |b|
  {
    if b == [] {
      assert a + b == a;
    } else {
      var last := |b| - 1;
      assert (a + b)[..|a + b| - 1] == a + b[..last];
      AttachAllConcat(s, a, b[..last], r);
    }
  }

  lemma AttachAllOne(s: State, k: nat, r: Record)
    requires ParentsFirst(s) && k < |s|
    ensures AttachAll(s, [k], r) == Attach(s, k, r)
  {
    assert [k][..0] == [];
  }

  lemma PointsAreFolders(s: State, k: nat, r: Record)
    requires Linked(s) && k < |s|
    ensures AreFolders(s, Points(s, k, r))
  {
    var points := Points(s, k, r);
    forall i | 0 <= i < |points| ensures IsFolder(s[points[i]].record) {
      PointsAreTopmost(s, k, r, points[i]);
    }
  }

  lemma PointsBelowAreBelow(s: State, k: nat, n: nat, r: Record, p: nat)
    requires Linked(s) && k < |s| && n <= |Kids(s, k)| && p in PointsBelow(s, k, n, r)
    ensures p < |s| && p != k && IsFolder(s[p].record)
    ensures n < |Kids(s, k)| ==> !Above(s, Kids(s, k)[n], p)
  {
    PointsBelowAreTopmost(s, k, n, r, p);
    var c: nat :| c < n && Topmost(s, Kids(s, k)[c], p, r);
    KidIsBelow(s, k, c);
    AboveIsSmaller(s, Kids(s, k)[c], p);
    if n < |Kids(s, k)| && Above(s, Kids(s, k)[n], p) {
      KidsAreDisjoint(s, k, c, n, p);
    }
  }

  /** The search below k only looks at the records and children below k. */
  ghost predicate SameBelow(s: State, t: State, k: int)
    requires ParentsFirst(s)
  {
    && |s| <= |t|
    && forall i {:trigger Above(s, k, i)} :: Above(s, k, i) ==> t[i].record == s[i].record && Kids(t, i) == Kids(s, i)
  }

  lemma {:induction false} SamePoints(s: State, t: State, k: nat, r: Record)
    requires ParentsFirst(s) && ParentsFirst(t) && k < |s| && SameBelow(s, t, k)
    ensures Points(t, k, r) == Points(s, k, r)
    decreases |s| - k, 1, 0
  {
    assert Above(s, k, k);
    SamePointsBelow(s, t, k, |Kids(s, k)|, r);
  }

  lemma {:induction false} SamePointsBelow(s: State, t: State, k: nat, n: nat, r: Record)
    requires ParentsFirst(s) && ParentsFirst(t) && k < |s| && SameBelow(s, t, k) && n <= |Kids(s, k)|
    ensures Kids(t, k) == Kids(s, k)
    ensures PointsBelow(t, k, n, r) == PointsBelow(s, k, n, r)
    decreases |s| - k, 0, n
  {
    assert Above(s, k, k);
    if n > 0 {
      SamePointsBelow(s, t, k, n - 1, r);
      var kid := Kids(s, k)[n - 1];
      KidIsBelow(s, k, n - 1);
      forall i | Above(s, kid, i) ensures Above(s, k, i) {
        AboveTrans(s, k, kid, i);
      }
      SamePoints(s, t, kid, r);
    }
  }

  /** New slots are new children of the points, and of nothing else. */
  lemma {:induction false} AttachedKids(s: State, points: seq<nat>, r: Record, t: State, i: nat, n: nat)
    requires AttachedAll(s, points, r, t) && i !in points && |s| <= n <= |t|
    ensures KidsAmong(t, i, n) == Kids(s, i)
    decreases n
  {
    if n == |s| {
      SameKids(s, t, i, n);
    } else {
      assert t[n - 1].parent == points[n - 1 - |s|];
      AttachedKids(s, points, r, t, i, n - 1);
    }
  }

  /** Attachments outside the subtree of kid do not disturb it. */
  lemma AttachedElsewhere(s: State, points: seq<nat>, r: Record, t: State, kid: nat)
    requires ParentsFirst(s) && ParentsFirst(t) && kid < |s| && AttachedAll(s, points, r, t)
    requires forall p :: p in points ==> p < |s| && !Above(s, kid, p)
    ensures SameBelow(s, t, kid)
    ensures forall j :: Above(t, kid, j) ==> Above(s, kid, j)
  {
    forall i | Above(s, kid, i) ensures t[i].record == s[i].record && Kids(t, i) == Kids(s, i) {
      AboveIsSmaller(s, kid, i);
      AttachedKids(s, points, r, t, i, |t|);
    }
    forall j | Above(t, kid, j) ensures Above(s, kid, j) {
      if j < |s| {
        SameAbove(s, t, kid, j);
      } else {
        assert t[j].parent == points[j - |s|] && points[j - |s|] in points;
        SameAbove(s, t, kid, points[j - |s|]);
      }
    }
  }

  /** Attachments below the first n children do not disturb the next child. */
  lemma EarlierChildrenApart(s: State, k: nat, n: nat, r: Record)
    requires Good(s) && k < |s| && n < |Kids(s, k)|
    ensures var t := InsertedBelow(s, k, n, r);
      && Good(t)
      && Kids(t, k) == Kids(s, k)
      && SameBelow(s, t, Kids(s, k)[n])
      && forall j :: Above(t, Kids(s, k)[n], j) ==> Above(s, Kids(s, k)[n], j)
  {
    var points := PointsBelow(s, k, n, r);
    forall p | p in points ensures p < |s| && !Above(s, Kids(s, k)[n], p) && p != k && IsFolder(s[p].record) {
      PointsBelowAreBelow(s, k, n, r, p);
    }
    AttachAllIs(s, points, r);
    AttachAllKeepsGood(s, points, r);
    var t := AttachAll(s, points, r);
    AttachedElsewhere(s, points, r, t, Kids(s, k)[n]);
    AttachedKids(s, points, r, t, k, |t|);
  }

  lemma NothingInserted(s: State, k: nat, r: Record)
    requires Good(s) && k < |s|
    ensures ParentsFirst(s) && InsertedBelow(s, k, 0, r) == s
  {
  }

  /** One turn of the loop over the children. */
  lemma NextChild(s: State, k: nat, n: nat, r: Record)
    requires Good(s) && k < |s| && n < |Kids(s, k)|
    ensures var t := InsertedBelow(s, k, n, r);
      && Good(t)
      && Kids(t, k) == Kids(s, k)
      && Inserted(t, Kids(s, k)[n], r) == InsertedBelow(s, k, n + 1, r)
  {
    EarlierChildrenApart(s, k, n, r);
    var a := PointsBelow(s, k, n, r);
    SamePoints(s, AttachAll(s, a, r), Kids(s, k)[n], r);
    AttachAllConcat(s, a, Points(s, Kids(s, k)[n], r), r);
  }

  /** Inserting below a child leaves the children of k alone. */
  lemma InsertedKeepsParent(s: State, k: nat, kid: nat, r: Record)
    requires Linked(s) && k < kid < |s|
    ensures Kids(Inserted(s, kid, r), k) == Kids(s, k)
  {
    var points := Points(s, kid, r);
    AttachAllIs(s, points, r);
    if k in points {
      PointsAreTopmost(s, kid, r, k);
      AboveIsSmaller(s, kid, k);
    }
    AttachedKids(s, points, r, Inserted(s, kid, r), k, |Inserted(s, kid, r)|);
  }

  /** The slots at or below k are among the first limit slots. */
  ghost predicate Within(s: State, k: nat, limit: nat)
    requires ParentsFirst(s)
  {
    forall j {:trigger Above(s, k, j)} :: Above(s, k, j) ==> j < limit
  }

  /** This still holds for the next child, after the attachments below the earlier ones. */
  lemma NextChildWithin(s: State, k: nat, n: nat, r: Record, limit: nat)
    requires Good(s) && k < |s| && n < |Kids(s, k)| && Within(s, k, limit)
    ensures Within(InsertedBelow(s, k, n, r), Kids(s, k)[n], limit)
    ensures Kids(s, k)[n] < limit
  {
    EarlierChildrenApart(s, k, n, r);
    KidIsBelow(s, k, n);
    forall j | Above(s, Kids(s, k)[n], j) ensures Above(s, k, j) {
      AboveTrans(s, k, Kids(s, k)[n], j);
    }
  }

  /** All that one turn of the loop needs, in both of its branches. */
  lemma Turn(s: State, k: nat, n: nat, r: Record, limit: nat)
    requires Good(s) && k < |s| && n < |Kids(s, k)| && Within(s, k, limit) && r.fileName.Some?
    ensures var t, kid, next := InsertedBelow(s, k, n, r), Kids(s, k)[n], InsertedBelow(s, k, n + 1, r);
      && Good(t) && Kids(t, k) == Kids(next, k) == Kids(s, k)
      && k < kid < limit && kid < |t| && Within(t, kid, limit)
      && Inserted(t, kid, r) == next
      && (!(t[kid].lo <= ToUint32(r.fileName.value.parRef) <= t[kid].hi) ==> next == t)
  {
    var t, kid := InsertedBelow(s, k, n, r), Kids(s, k)[n];
    NextChild(s, k, n, r);
    NextChildWithin(s, k, n, r, limit);
    KidIsBelow(s, k, n);
    InsertedKeepsParent(t, k, kid, r);
    if !(t[kid].lo <= ToUint32(r.fileName.value.parRef) <= t[kid].hi) {
      PruningIsExact(t, kid, r);
    }
  }

  // ----- Whole runs

  ghost function Add(s: State, r: Record): State
    requires Good(s)
  {
    if s == [] then [Slot(r, -1, 0, 0)]
    else Inserted(s, 0, r)
  }

  lemma AddKeepsGood(s: State, r: Record)
    requires Good(s)
    ensures Good(Add(s, r))
  {
    if s == [] {
      var t := Add(s, r);
      assert Linked(t);
    } else {
      PointsAreFolders(s, 0, r);
      AttachAllKeepsGood(s, Points(s, 0, r), r);
    }
  }

  ghost function AddAll(s: State, records: seq<Record>): (t: State)
    requires Good(s)
    ensures Good(t)
    decreases |records|
  {
    if records == [] then s
    else
      var last := |records| - 1;
      var t := AddAll(s, records[..last]);
      if records[last].entry < 5 then t
      else
        AddKeepsGood(t, records[last]);
        Add(t, records[last])
  }

  // ----- The listing

  /** The slots below k in the order in which they are listed. */
  ghost function Order(s: State, k: nat): (order: seq<nat>)
    requires ParentsFirst(s) && k < |s|
    ensures forall i {:trigger order[i]} :: 0 <= i < |order| ==> order[i] < |s|
    decreases |s| - k, 1, 0
  {
    Kids(s, k) + OrderBelow(s, k, |Kids(s, k)|)
  }

  ghost function OrderBelow(s: State, k: nat, n: nat): (order: seq<nat>)
    requires ParentsFirst(s) && k < |s| && n <= |Kids(s, k)|
    ensures forall i {:trigger order[i]} :: 0 <= i < |order| ==> order[i] < |s|
    decreases |s| - k, 0, n
  {
    if n == 0 then []
    else
      KidIsBelow(s, k, n - 1);
      OrderBelow(s, k, n - 1) + Order(s, Kids(s, k)[n - 1])
  }

  function RecordsAt(s: State, slots: seq<nat>): (records: seq<Record>)
    requires forall i {:trigger slots[i]} :: 0 <= i < |slots| ==> slots[i] < |s|
    ensures |records| == |slots|
    ensures forall i {:trigger records[i]} :: 0 <= i < |records| ==> records[i] == s[slots[i]].record
  {
    seq(|slots|, i requires 0 <= i < |slots| => s[slots[i]].record)
  }

  /** The records listed by a descent from slot k. */
  ghost function Listed(s: State, k: nat): seq<Record>
    requires ParentsFirst(s) && k < |s|
  {
    RecordsAt(s, Order(s, k))
  }

  /** The same, while only the first n children have been descended into. */
  ghost function ListedUpTo(s: State, k: nat, n: nat): seq<Record>
    requires ParentsFirst(s) && k < |s| && n <= |Kids(s, k)|
  {
    RecordsAt(s, Kids(s, k) + OrderBelow(s, k, n))
  }

  lemma ListedNext(s: State, k: nat, n: nat)
    requires ParentsFirst(s) && k < |s| && n < |Kids(s, k)|
    ensures Kids(s, k)[n] > k
    ensures ListedUpTo(s, k, n + 1) == ListedUpTo(s, k, n) + Listed(s, Kids(s, k)[n])
  {
    KidIsBelow(s, k, n);
    var before, more := Kids(s, k) + OrderBelow(s, k, n), Order(s, Kids(s, k)[n]);
    assert Kids(s, k) + OrderBelow(s, k, n + 1) == before + more;
    assert RecordsAt(s, before + more) == RecordsAt(s, before) + RecordsAt(s, more);
  }

  /** Slot j is strictly below one of the first n children of slot k. */
  ghost predicate DeepBelow(s: State, k: nat, n: nat, j: nat)
    requires ParentsFirst(s) && k < |s| && n <= |Kids(s, k)|
  {
    exists c: nat {:trigger Kids(s, k)[c]} :: c < n && Above(s, Kids(s, k)[c], j) && j != Kids(s, k)[c]
  }

  /** Strictly below k means being a child of k or deep below one, and not both. */
  lemma ChildOrDeep(s: State, k: nat, j: nat)
    requires ParentsFirst(s) && k < |s|
    ensures var child, deep := j < |s| && s[j].parent == k, DeepBelow(s, k, |Kids(s, k)|, j);
      && (Above(s, k, j) && j != k <==> child || deep)
      && !(child && deep)
  {
    if j < |s| && s[j].parent == k {
      assert Above(s, k, s[j].parent);
    }
    if d: nat :| d < |Kids(s, k)| && Above(s, Kids(s, k)[d], j) && j != Kids(s, k)[d] {
      KidIsBelow(s, k, d);
      AboveTrans(s, k, Kids(s, k)[d], j);
      AboveIsSmaller(s, Kids(s, k)[d], j);
      if s[j].parent == k {
        AboveIsSmaller(s, Kids(s, k)[d], k);
      }
    } else if Above(s, k, j) && j != k {
      var c := BelowAKid(s, k, j);
      assert s[Kids(s, k)[c]].parent == k;
    }
  }

  /** The listing from slot k names every slot strictly below k, once. */
  lemma {:induction false} OrderOnce(s: State, k: nat, j: nat)
    requires ParentsFirst(s) && k < |s|
    ensures Count(Order(s, k), j) == if Above(s, k, j) && j != k then 1 else 0
    decreases |s| - k, 1, 0
  {
    OrderBelowOnce(s, k, |Kids(s, k)|, j);
    KidsOnce(s, k, |s|, j);
    CountConcat(Kids(s, k), OrderBelow(s, k, |Kids(s, k)|), j);
    ChildOrDeep(s, k, j);
  }

  lemma {:induction false} OrderBelowOnce(s: State, k: nat, n: nat, j: nat)
    requires ParentsFirst(s) && k < |s| && n <= |Kids(s, k)|
    ensures Count(OrderBelow(s, k, n), j) == if DeepBelow(s, k, n, j) then 1 else 0
    decreases |s| - k, 0, n
  {
    if n > 0 {
      var kid := Kids(s, k)[n - 1];
      KidIsBelow(s, k, n - 1);
      OrderBelowOnce(s, k, n - 1, j);
      OrderOnce(s, kid, j);
      CountConcat(OrderBelow(s, k, n - 1), Order(s, kid), j);
      OneMoreChild(s, k, n, j);
    }
  }

  lemma OneMoreChild(s: State, k: nat, n: nat, j: nat)
    requires ParentsFirst(s) && k < |s| && 0 < n <= |Kids(s, k)|
    ensures var kid := Kids(s, k)[n - 1];
      var here, before := Above(s, kid, j) && j != kid, DeepBelow(s, k, n - 1, j);
      && (DeepBelow(s, k, n, j) <==> here || before)
      && !(here && before)
  {
    if c: nat :| c < n - 1 && Above(s, Kids(s, k)[c], j) && Above(s, Kids(s, k)[n - 1], j) {
      KidsAreDisjoint(s, k, c, n - 1, j);
    }
  }

  lemma {:induction false} KidsOnce(s: State, k: nat, n: nat, j: nat)
    requires n <= |s|
    ensures Count(KidsAmong(s, k, n), j) == if j < n && s[j].parent == k then 1 else 0
  {
    if n > 0 {
      KidsOnce(s, k, n - 1, j);
      if s[n - 1].parent == k {
        CountConcat(KidsAmong(s, k, n - 1), [n - 1], j);
        assert [n - 1][..0] == [];
      } else {
        assert KidsAmong(s, k, n) == KidsAmong(s, k, n - 1);
      }
    }
  }

  // ----- One attachment per point

  lemma {:induction false} PointsOnce(s: State, k: nat, r: Record, p: nat)
    requires Linked(s) && k < |s|
    ensures Count(Points(s, k, r), p) == if Topmost(s, k, p, r) then 1 else 0
    decreases |s| - k, 1, 0
  {
    PointsAreTopmost(s, k, r, p);
    CountIn(Points(s, k, r), p);
    if IsFolder(s[k].record) && r.fileName.Some? {
      if IsChild(s[k].record, r) {
        assert [k][..0] == [];
      } else {
        PointsBelowOnce(s, k, |Kids(s, k)|, r, p);
      }
    }
  }

  lemma {:induction false} PointsBelowOnce(s: State, k: nat, n: nat, r: Record, p: nat)
    requires Linked(s) && k < |s| && n <= |Kids(s, k)|
    ensures Count(PointsBelow(s, k, n, r), p) <= 1
    decreases |s| - k, 0, n
  {
    if n > 0 {
      var kid := Kids(s, k)[n - 1];
      KidIsBelow(s, k, n - 1);
      PointsBelowOnce(s, k, n - 1, r, p);
      PointsOnce(s, kid, r, p);
      CountConcat(PointsBelow(s, k, n - 1, r), Points(s, kid, r), p);
      CountIn(PointsBelow(s, k, n - 1, r), p);
      if p in PointsBelow(s, k, n - 1, r) {
        PointsBelowAreBelow(s, k, n - 1, r, p);
      }
    }
  }

  // ----- Building from records with distinct entries

  /** By the fields alone: p is a folder, in use or not, and the file name of r gives its entry
      as the parent, and its sequence number or the one before. */
  predicate Names(r: Record, p: Record) {
    && (p.flags == 2 || p.flags == 3)
    && r.fileName.Some?
    && r.fileName.value.parRef == p.entry
    && (p.seqNo - r.fileName.value.parSeq) % 0x1_0000 <= 1
  }

  lemma NamesIs(r: Record, p: Record)
    ensures Names(r, p) <==> IsFolder(p) && IsChild(p, r)
  {
  }

  /** A single scan that keeps r when it is the first, or when it names a record kept earlier. */
  function Kept(records: seq<Record>): seq<Record> {
    if records == [] then []
    else
      var last := |records| - 1;
      var kept, r := Kept(records[..last]), records[last];
      if r.entry >= 5 && (kept == [] || exists p :: p in kept && Names(r, p)) then kept + [r]
      else kept
  }

  ghost predicate DistinctEntries(records: seq<Record>) {
    forall i, j :: 0 <= i < j < |records| ==> records[i].entry != records[j].entry
  }

  /** The slots hold exactly these records, and each one but the first has the parent
      that it names. */
  ghost predicate Holds(s: State, kept: seq<Record>) {
    && |s| == |kept|
    && (forall i {:trigger s[i]} :: 0 <= i < |s| ==> s[i].record == kept[i])
    && ParentsFirst(s)
    && forall i {:trigger s[i]} :: 0 < i < |s| ==> Names(s[i].record, s[s[i].parent].record)
  }

  lemma {:induction false} KeptOccur(records: seq<Record>, i: nat)
    requires i < |Kept(records)|
    ensures Kept(records)[i] in records
  {
    var last := |records| - 1;
    if i < |Kept(records[..last])| {
      KeptOccur(records[..last], i);
    }
  }

  lemma {:induction false} KeptDistinct(records: seq<Record>)
    requires DistinctEntries(records)
    ensures DistinctEntries(Kept(records))
  {
    if records != [] {
      var last := |records| - 1;
      KeptDistinct(records[..last]);
      var kept := Kept(records[..last]);
      forall i | 0 <= i < |kept| ensures kept[i].entry != records[last].entry {
        KeptOccur(records[..last], i);
      }
    }
  }

  lemma AddHolds(s: State, kept: seq<Record>, r: Record)
    requires Good(s) && s != [] && Holds(s, kept) && DistinctEntries(kept)
    ensures kept != []
    ensures Holds(Add(s, r), if exists p :: p in kept && Names(r, p) then kept + [r] else kept)
  {
    if p :| p in kept && Names(r, p) {
      NamesIs(r, p);
      var i :| 0 <= i < |kept| && kept[i] == p;
      assert s[i].record == p;
      SoleParent(s, kept, r, i);
      AttachAllOne(s, i, r);
      AttachIs(s, i, r);
      AttachHolds(s, kept, r, i, Attach(s, i, r));
    } else if Points(s, 0, r) != [] {
      var p := Points(s, 0, r)[0];
      PointsAreTopmost(s, 0, r, p);
      NamesIs(r, s[p].record);
    }
  }

  lemma AttachHolds(s: State, kept: seq<Record>, r: Record, i: nat, t: State)
    requires Holds(s, kept) && i < |s| && Names(r, s[i].record) && Attached(s, i, r, t)
    ensures Holds(t, kept + [r])
  {
    hide Names;
    AttachKeepsParents(s, i, r, t);
    forall j | 0 < j < |t| ensures Names(t[j].record, t[t[j].parent].record) {
      if j < |s| {
        assert Names(s[j].record, s[s[j].parent].record);
      }
    }
  }

  /** Slots that r could name as its parent are the same slot. */
  lemma SameParent(s: State, kept: seq<Record>, r: Record, i: nat, p: int)
    requires Holds(s, kept) && DistinctEntries(kept) && i < |s| && 0 <= p < |s|
    requires IsChild(s[i].record, r) && IsChild(s[p].record, r)
    ensures p == i
  {
    assert kept[p] == s[p].record && kept[i] == s[i].record;
  }

  lemma ParentIsTopmost(s: State, kept: seq<Record>, r: Record, i: nat)
    requires ParentsFirst(s) && i < |s| && Holds(s, kept) && DistinctEntries(kept)
    requires IsFolder(s[i].record) && IsChild(s[i].record, r)
    ensures Topmost(s, 0, i, r)
  {
    AboveRoot(s, i);
    forall q | Above(s, q, i) && q != i ensures 0 <= q < |s| && !IsChild(s[q].record, r) {
      AboveIsSmaller(s, q, i);
      if IsChild(s[q].record, r) {
        SameParent(s, kept, r, i, q);
      }
    }
  }

  lemma SoleParent(s: State, kept: seq<Record>, r: Record, i: nat)
    requires Linked(s) && i < |s| && Holds(s, kept) && DistinctEntries(kept)
    requires IsFolder(s[i].record) && IsChild(s[i].record, r)
    ensures Points(s, 0, r) == [i]
  {
    var points := Points(s, 0, r);
    ParentIsTopmost(s, kept, r, i);
    PointsOnce(s, 0, r, i);
    forall m | 0 <= m < |points| ensures points[m] == i {
      PointsAreTopmost(s, 0, r, points[m]);
      SameParent(s, kept, r, i, points[m]);
    }
    if |points| > 1 {
      CountTwice(points, i, 0, 1);
    }
  }

  /** Built from nothing out of records with distinct entries, the tree holds exactly what
      a single scan keeps, once each, in record order, below the one parent it names. */
  lemma {:induction false} BuildIsOneScan(records: seq<Record>)
    requires DistinctEntries(records)
    ensures Holds(AddAll([], records), Kept(records))
    decreases |records|
  {
    hide Holds, Add, Names;
    HoldsNothing();
    if records != [] {
      var last := |records| - 1;
      var s := AddAll([], records[..last]);
      BuildIsOneScan(records[..last]);
      KeptDistinct(records[..last]);
      if records[last].entry >= 5 {
        if s == [] {
          HoldsRoot(Kept(records[..last]), records[last]);
        } else {
          AddHolds(s, Kept(records[..last]), records[last]);
        }
      }
    }
  }

  lemma HoldsNothing()
    ensures Holds([], [])
  {
  }

  lemma HoldsRoot(kept: seq<Record>, r: Record)
    requires Holds([], kept)
    ensures kept == [] && Holds(Add([], r), kept + [r])
  {
    assert kept + [r] == [r];
  }

  /** A folder and a file in it: both are kept, the file below the folder. */
  lemma FileInFolder()
    ensures var folder := Record(5, 5, 3, None);
      var file := Record(40, 1, 1, Some(FileName(5, 5)));
      Kept([folder, file]) == [folder, file] && Holds(AddAll([], [folder, file]), [folder, file])
  {
    var folder := Record(5, 5, 3, None);
    var file := Record(40, 1, 1, Some(FileName(5, 5)));
    var records := [folder, file];
    assert records[..1] == [folder] && records[..1][..0] == [];
    assert Kept(records[..1]) == [] + [folder];
    assert folder in Kept(records[..1]) && Names(file, folder);
    BuildIsOneScan(records);
  }
}

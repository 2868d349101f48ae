/** The $MFT table as a value: one header per slot, and the links between slots. */
module MftTableModel {
  import opened Machine
  import opened Chains

  datatype FileName = FileName(parRef: uint64, parSeq: uint16, space: byte, name: string, realSize: uint64)

  datatype Reference = Reference(entry: uint32, seqNo: uint16)

  /** What is parsed out of one record.  References are those of its attribute list. */
  datatype Header = Header(entry: uint32, seqNo: uint16, fileNames: seq<FileName>, references: seq<Reference>)

  const BLANK: Header := Header(0, 0, [], [])

  datatype Chunk = Zeroed | Corrupt | Parsed(header: Header)

  // ----- Placing records in slots

  /** The slots of a table of this size after the first n chunks, or None where an entry number
      has no slot. */
  function Placed(chunks: seq<Chunk>, size: nat, n: nat): (slots: Option<seq<Header>>)
    requires n <= |chunks|
    ensures slots.Some? ==> |slots.value| == size
  {
    if n == 0 then Some(seq(size, _ => BLANK))
    else
      var before := Placed(chunks, size, n - 1);
      if before.None? || !chunks[n - 1].Parsed? then before
      else if chunks[n - 1].header.entry < size then
        Some(before.value[chunks[n - 1].header.entry := chunks[n - 1].header])
      else None
  }

  predicate Writes(chunk: Chunk, slot: int) {
    chunk.Parsed? && chunk.header.entry == slot
  }

  /** Every slot is blank or holds the record with its own number. */
  predicate Indexed(slots: seq<Header>) {
    forall j {:trigger slots[j]} :: 0 <= j < |slots| ==> slots[j] == BLANK || slots[j].entry == j
  }

  lemma {:induction false} PlacedIsIndexed(chunks: seq<Chunk>, size: nat, n: nat)
    requires n <= |chunks|
    ensures Placed(chunks, size, n).Some? ==> Indexed(Placed(chunks, size, n).value)
  {
    if n > 0 {
      PlacedIsIndexed(chunks, size, n - 1);
    }
  }

  /** Placing panics exactly when some record has a number beyond the table, as happens
      whenever only part of the table was read. */
  lemma {:induction false} PlacedPanicsIff(chunks: seq<Chunk>, size: nat, n: nat)
    requires n <= |chunks|
    ensures Placed(chunks, size, n).None?
       <==> exists i :: 0 <= i < n && chunks[i].Parsed? && chunks[i].header.entry >= size
  {
    if n > 0 {
      PlacedPanicsIff(chunks, size, n - 1);
    }
  }

  /** A slot holds the last record written to it, and is blank if there is none. */
  lemma {:induction false} LastWriterWins(chunks: seq<Chunk>, size: nat, n: nat, slot: nat, i: nat)
    requires n <= |chunks| && slot < size && Placed(chunks, size, n).Some?
    ensures (forall k :: 0 <= k < n ==> !Writes(chunks[k], slot)) ==> Placed(chunks, size, n).value[slot] == BLANK
    ensures i < n && Writes(chunks[i], slot) && (forall k :: i < k < n ==> !Writes(chunks[k], slot)) ==>
      Placed(chunks, size, n).value[slot] == chunks[i].header
  {
    if n > 0 {
      LastWriterWins(chunks, size, n - 1, slot, i);
    }
  }

  // ----- Looking a reference up

  /** Some slot among the first n has this entry number. */
  predicate Occurs(slots: seq<Header>, entry: uint32, n: nat)
    requires n <= |slots|
  {
    n > 0 && (slots[n - 1].entry == entry || Occurs(slots, entry, n - 1))
  }

  lemma {:induction false} OccursIs(slots: seq<Header>, entry: uint32, n: nat)
    requires n <= |slots|
    ensures Occurs(slots, entry, n) <==> exists i :: 0 <= i < n && slots[i].entry == entry
  {
    if n > 0 {
      OccursIs(slots, entry, n - 1);
    }
  }

  /** Index first, then a scan that reads a slot beyond the table as soon as it finds a match. */
  function Lookup(slots: seq<Header>, entry: uint32, seqNo: uint16): (found: Outcome<nat>)
    ensures found.Returns? ==> found.value < |slots| && slots[found.value].entry == entry
  {
    if entry < |slots| then
      if slots[entry].entry != entry then Fails
      else if Sub16(slots[entry].seqNo, seqNo) > 1 then Fails
      else Returns(entry)
    else if Occurs(slots, entry, |slots|) then Panics
    else Fails
  }

  /** By the fields alone: the entry, and the sequence number or the one before. */
  predicate Refers(slot: Header, entry: uint32, seqNo: uint16) {
    slot.entry == entry && (slot.seqNo - seqNo) % 0x1_0000 <= 1
  }

  /** In an indexed table the lookup of a nonzero entry finds what a linear scan finds, and
      the scan it falls back to never matches. */
  lemma LookupIsScan(slots: seq<Header>, entry: uint32, seqNo: uint16)
    requires Indexed(slots) && entry != 0
    ensures !Lookup(slots, entry, seqNo).Panics?
    ensures Lookup(slots, entry, seqNo).Returns? <==> exists i :: 0 <= i < |slots| && Refers(slots[i], entry, seqNo)
    ensures forall i :: 0 <= i < |slots| && Refers(slots[i], entry, seqNo) ==> Lookup(slots, entry, seqNo) == Returns(i)
  {
    OccursIs(slots, entry, |slots|);
    forall i | 0 <= i < |slots| && slots[i].entry == entry ensures i == entry {
    }
    if entry < |slots| && Lookup(slots, entry, seqNo).Returns? {
      assert Refers(slots[entry], entry, seqNo);
    }
  }

  /** The lookup panics if and only if the entry lies beyond the table and some slot has it
      all the same. */
  lemma LookupPanicsIff(slots: seq<Header>, entry: uint32, seqNo: uint16)
    ensures Lookup(slots, entry, seqNo).Panics?
       <==> entry >= |slots| && exists i :: 0 <= i < |slots| && slots[i].entry == entry
  {
    OccursIs(slots, entry, |slots|);
  }

  /** A table of one record that is out of place. */
  lemma MisplacedRecordPanics()
    ensures Lookup([Header(7, 1, [], [])], 7, 1).Panics?
  {
    LookupPanicsIff([Header(7, 1, [], [])], 7, 1);
    assert [Header(7, 1, [], [])][0].entry == 7;
  }

  lemma LookupDoesNotPanic(slots: seq<Header>, entry: uint32, seqNo: uint16)
    requires Indexed(slots)
    ensures !Lookup(slots, entry, seqNo).Panics?
  {
    if entry != 0 {
      LookupIsScan(slots, entry, seqNo);
    }
  }

  // ----- Parents

  function ParentLookup(slots: seq<Header>, i: nat): Outcome<nat>
    requires i < |slots|
  {
    if slots[i].fileNames == [] then Fails
    else Lookup(slots, ToUint32(slots[i].fileNames[0].parRef), slots[i].fileNames[0].parSeq)
  }

  /** The parent links after the first n slots have looked theirs up. */
  function Parents(slots: seq<Header>, before: Links, n: nat): (parents: Links)
    requires |before| == |slots| && n <= |slots|
    ensures |parents| == |slots|
  {
    seq(|slots|, i requires 0 <= i < |slots| =>
      if i < n && ParentLookup(slots, i).Returns? then Some(ParentLookup(slots, i).value) else before[i])
  }

  // ----- Linked records

  /** Where reference m of slot i leads, if anywhere; never to its own number. */
  function Target(slots: seq<Header>, i: nat, m: nat): (target: seq<nat>)
    requires i < |slots| && m < |slots[i].references|
    ensures |target| <= 1
  {
    var r := slots[i].references[m];
    var found := Lookup(slots, r.entry, r.seqNo);
    if r.entry != slots[i].entry && found.Returns? then [found.value] else []
  }

  /** Where the first m references of slot i lead. */
  function Resolved(slots: seq<Header>, i: nat, m: nat): (targets: seq<nat>)
    requires i < |slots| && m <= |slots[i].references|
  {
    if m == 0 then [] else Resolved(slots, i, m - 1) + Target(slots, i, m - 1)
  }

  function Targets(slots: seq<Header>, i: nat): (targets: seq<nat>)
    requires i < |slots|
  {
    Resolved(slots, i, |slots[i].references|)
  }

  /** Where the references of each of the first n slots lead. */
  function AllTargets(slots: seq<Header>, n: nat): (all: seq<seq<nat>>)
    requires n <= |slots|
    ensures |all| == n
  {
    if n == 0 then [] else AllTargets(slots, n - 1) + [Targets(slots, n - 1)]
  }

  lemma {:induction false} AllTargetsAt(slots: seq<Header>, n: nat, i: nat)
    requires i < n <= |slots|
    ensures AllTargets(slots, n)[i] == Targets(slots, i)
  {
    if i < n - 1 {
      AllTargetsAt(slots, n - 1, i);
    }
  }

  /** The origin links after slot i has claimed these targets. */
  function Claimed(origins: Links, i: nat, targets: seq<nat>): (claimed: Links)
    ensures |claimed| == |origins|
  {
    seq(|origins|, j requires 0 <= j < |origins| => if j in targets then Some(i) else origins[j])
  }

  /** The origin links after the first n slots have claimed all their targets. */
  function Origins(all: seq<seq<nat>>, before: Links, n: nat): (origins: Links)
    requires n <= |all|
    ensures |origins| == |before|
  {
    if n == 0 then before else Claimed(Origins(all, before, n - 1), n - 1, all[n - 1])
  }

  lemma ClaimedIs(origins: Links, i: nat, a: seq<nat>, b: seq<nat>)
    ensures Claimed(Claimed(origins, i, a), i, b) == Claimed(origins, i, a + b)
    ensures Claimed(origins, i, []) == origins
    ensures |a| == 1 && a[0] < |origins| ==> Claimed(origins, i, a) == origins[a[0] := Some(i)]
  {
  }

  function AppendAt(lists: seq<seq<nat>>, i: nat, more: seq<nat>): seq<seq<nat>>
    requires i < |lists|
  {
    lists[i := lists[i] + more]
  }

  /** The origins and the list of slot i after its first m references, one by one. */
  function OriginsAfter(slots: seq<Header>, before: Links, i: nat, m: nat): (origins: Links)
    requires i < |slots| && m <= |slots[i].references|
    ensures |origins| == |before|
  {
    if m == 0 then before else Claimed(OriginsAfter(slots, before, i, m - 1), i, Target(slots, i, m - 1))
  }

  function ListsAfter(slots: seq<Header>, before: seq<seq<nat>>, i: nat, m: nat): (lists: seq<seq<nat>>)
    requires i < |slots| == |before| && m <= |slots[i].references|
    ensures |lists| == |before|
  {
    if m == 0 then before else AppendAt(ListsAfter(slots, before, i, m - 1), i, Target(slots, i, m - 1))
  }

  lemma AppendIs(lists: seq<seq<nat>>, i: nat, a: seq<nat>, b: seq<nat>)
    requires i < |lists|
    ensures AppendAt(AppendAt(lists, i, a), i, b) == AppendAt(lists, i, a + b)
    ensures AppendAt(lists, i, []) == lists
  {
    assert lists[i] + a + b == lists[i] + (a + b);
    assert lists[i] + [] == lists[i];
  }

  /** Going one by one comes to the same as taking all targets at once. */
  lemma {:induction false} OriginsOneByOne(slots: seq<Header>, before: Links, i: nat, m: nat)
    requires i < |slots| && m <= |slots[i].references|
    ensures OriginsAfter(slots, before, i, m) == Claimed(before, i, Resolved(slots, i, m))
  {
    if m > 0 {
      OriginsOneByOne(slots, before, i, m - 1);
      ClaimedIs(before, i, Resolved(slots, i, m - 1), Target(slots, i, m - 1));
    } else {
      ClaimedIs(before, i, [], []);
    }
  }

  lemma {:induction false} ListsOneByOne(slots: seq<Header>, before: seq<seq<nat>>, i: nat, m: nat)
    requires i < |slots| == |before| && m <= |slots[i].references|
    ensures ListsAfter(slots, before, i, m) == AppendAt(before, i, Resolved(slots, i, m))
  {
    if m == 0 {
      AppendIs(before, i, [], []);
    } else {
      ListsOneByOne(slots, before, i, m - 1);
      AppendIs(before, i, Resolved(slots, i, m - 1), Target(slots, i, m - 1));
    }
  }

  /** The lists of linked slots after the first n slots have added their targets. */
  function Linked(lists: seq<seq<nat>>, all: seq<seq<nat>>, n: nat): (linked: seq<seq<nat>>)
    requires |lists| == |all| && n <= |all|
    ensures |linked| == |lists|
  {
    if n == 0 then lists else AppendAt(Linked(lists, all, n - 1), n - 1, all[n - 1])
  }

  /** Each list keeps what it had and gains the targets of its slot, in order. */
  lemma {:induction false} LinkedIs(lists: seq<seq<nat>>, all: seq<seq<nat>>, n: nat, i: nat)
    requires |lists| == |all| && n <= |all| && i < |all|
    ensures Linked(lists, all, n)[i] == if i < n then lists[i] + all[i] else lists[i]
  {
    if n > 0 {
      LinkedIs(lists, all, n - 1, i);
    }
  }

  /** The last of the first n slots that refers to j, or what was there before. */
  ghost predicate IsLastReferrer(all: seq<seq<nat>>, n: nat, j: nat, before: Option<nat>, origin: Option<nat>)
    requires n <= |all|
  {
    || (origin == before && forall i :: 0 <= i < n ==> j !in all[i])
    || (origin.Some? && origin.value < n && j in all[origin.value]
        && forall i :: origin.value < i < n ==> j !in all[i])
  }

  /** The origin of a slot is the last slot that refers to it, when there is one. */
  lemma {:induction false} OriginIsLastReferrer(all: seq<seq<nat>>, before: Links, n: nat, j: nat)
    requires n <= |all| && j < |before|
    ensures IsLastReferrer(all, n, j, before[j], Origins(all, before, n)[j])
  {
    if n > 0 {
      OriginIsLastReferrer(all, before, n - 1, j);
    }
  }

  ghost predicate NoLinks(links: Links) {
    forall i {:trigger links[i]} :: 0 <= i < |links| ==> links[i].None?
  }

  /** When j has at most one referrer, it is linked from i exactly when its origin is i. */
  lemma OneReferrerInverse(all: seq<seq<nat>>, before: Links, i: nat, j: nat)
    requires |all| == |before| && NoLinks(before) && i < |all| && j < |all|
    requires forall a, b :: 0 <= a < b < |all| ==> !(j in all[a] && j in all[b])
    ensures j in all[i] <==> Origins(all, before, |all|)[j] == Some(i)
  {
    OriginIsLastReferrer(all, before, |all|, j);
  }

  /** When no target refers any further, no origin has an origin: names and sizes are found
      after at most one step. */
  lemma OriginDepthOne(all: seq<seq<nat>>, before: Links, j: nat)
    requires |all| == |before| && NoLinks(before) && j < |all|
    requires forall a, b :: 0 <= a < |all| && b in all[a] && b < |all| ==> all[b] == []
    ensures var origins := Origins(all, before, |all|);
      origins[j].Some? ==> origins[j].value < |all| && origins[origins[j].value].None?
  {
    OriginIsLastReferrer(all, before, |all|, j);
    var origin := Origins(all, before, |all|)[j];
    if origin.Some? {
      OriginIsLastReferrer(all, before, |all|, origin.value);
    }
  }

  // ----- Names, sizes and paths

  function SpaceName(space: byte): string {
    match space
    case 0 => "POSIX"
    case 1 => "Win32"
    case 2 => "Dos"
    case 3 => "Win32 & Dos"
    case _ => ""
  }

  const PREFERENCE: seq<string> := ["Win32", "Win32 & Dos", "POSIX", "Dos"]

  /** The last file name in a name space. */
  function NameIn(fileNames: seq<FileName>, space: string): Option<string> {
    if fileNames == [] then None
    else
      var last := |fileNames| - 1;
      if SpaceName(fileNames[last].space) == space then Some(fileNames[last].name)
      else NameIn(fileNames[..last], space)
  }

  /** The name in the most preferred of the spaces from k on, or a dash. */
  function OwnName(fileNames: seq<FileName>, k: nat): string
    requires k <= |PREFERENCE|
    decreases |PREFERENCE| - k
  {
    if k == |PREFERENCE| then "-"
    else if NameIn(fileNames, PREFERENCE[k]).Some? then NameIn(fileNames, PREFERENCE[k]).value
    else OwnName(fileNames, k + 1)
  }

  /** The name of slot i is the name of the last slot on its origin chain. */
  ghost function Name(slots: seq<Header>, origins: Links, i: nat): string
    requires |origins| == |slots| && Closed(origins) && i < |slots|
  {
    OwnName(slots[Last(origins, i)].fileNames, 0)
  }

  /** The parent links that a path follows: none at a missing parent or at the root, entry 5. */
  function Up(slots: seq<Header>, parents: Links): (up: Links)
    requires |parents| == |slots| && forall i :: 0 <= i < |parents| && parents[i].Some? ==> parents[i].value < |slots|
    ensures |up| == |slots|
  {
    seq(|slots|, i requires 0 <= i < |slots| =>
      if parents[i].Some? && slots[parents[i].value].entry != 5 then parents[i] else None)
  }

  ghost function Names(slots: seq<Header>, origins: Links, nodes: seq<nat>): (names: seq<string>)
    requires |origins| == |slots| && Closed(origins) && forall k :: 0 <= k < |nodes| ==> nodes[k] < |slots|
    ensures |names| == |nodes|
  {
    seq(|nodes|, k requires 0 <= k < |nodes| => Name(slots, origins, nodes[k]))
  }

  /** The names of the ancestors of slot i, outermost first. */
  ghost function Path(slots: seq<Header>, parents: Links, origins: Links, i: nat): seq<string>
    requires |parents| == |origins| == |slots| && Closed(parents) && Closed(origins) && i < |slots|
  {
    Names(slots, origins, Ancestors(Up(slots, parents), i))
  }

  /** A path that ends is the path of the parent, then the name of the parent; it is empty
      at the root and where the parent is missing. */
  lemma PathOfParent(slots: seq<Header>, parents: Links, origins: Links, i: nat)
    requires |parents| == |origins| == |slots| && Closed(parents) && Closed(origins) && i < |slots|
    requires Ends(Up(slots, parents), i)
    ensures parents[i].Some? && slots[parents[i].value].entry != 5 ==>
      Path(slots, parents, origins, i)
      == Path(slots, parents, origins, parents[i].value) + [Name(slots, origins, parents[i].value)]
    ensures !(parents[i].Some? && slots[parents[i].value].entry != 5) ==> Path(slots, parents, origins, i) == []
  {
    AncestorsOfParent(Up(slots, parents), i);
  }

  /** One turn of the walk to the root. */
  lemma PathStep(slots: seq<Header>, parents: Links, origins: Links, i: nat, at: nat, path: seq<string>)
    requires |parents| == |origins| == |slots| && Closed(parents) && Closed(origins) && i < |slots| && at < |slots|
    requires Ends(Up(slots, parents), at) && parents[at].Some? && slots[parents[at].value].entry != 5
    requires Path(slots, parents, origins, i) == Path(slots, parents, origins, at) + path
    ensures var p, up := parents[at].value, Up(slots, parents);
      && Ends(up, p)
      && Ancestors(up, at) == Ancestors(up, p) + [p]
      && Path(slots, parents, origins, i) == Path(slots, parents, origins, p) + ([Name(slots, origins, p)] + path)
  {
    PathOfParent(slots, parents, origins, at);
    AncestorsOfParent(Up(slots, parents), at);
  }

  // ----- A damaged table whose paths never end

  const LOOP: seq<Header> := [
    BLANK,
    Header(1, 1, [FileName(2, 1, 1, "a", 0)], []),
    Header(2, 1, [FileName(1, 1, 1, "b", 0)], [])
  ]

  /** Two records that name each other as parent are accepted and linked, and the path of
      either never ends. */
  lemma MutualParentsNeverEnd()
    ensures Indexed(LOOP)
    ensures var parents := Parents(LOOP, [None, None, None], 3);
      && Closed(parents)
      && !Ends(Up(LOOP, parents), 1) && !Ends(Up(LOOP, parents), 2)
  {
    var parents := Parents(LOOP, [None, None, None], 3);
    var up := Up(LOOP, parents);
    assert up == [None, Some(2), Some(1)];
    MutualLinksNeverEnd(up, 1, 2);
    MutualLinksNeverEnd(up, 2, 1);
  }

  const CLAIMS: seq<Header> := [
    BLANK,
    Header(1, 1, [], [Reference(2, 1)]),
    Header(2, 1, [], [Reference(1, 1)])
  ]

  lemma ClaimsAreMutual()
    ensures AllTargets(CLAIMS, 3) == [[], [2], [1]]
  {
    assert Target(CLAIMS, 1, 0) == [2] && Target(CLAIMS, 2, 0) == [1];
    assert Targets(CLAIMS, 0) == [];
    assert Resolved(CLAIMS, 1, 0) == [] && Targets(CLAIMS, 1) == [2];
    assert Resolved(CLAIMS, 2, 0) == [] && Targets(CLAIMS, 2) == [1];
    AllTargetsAt(CLAIMS, 3, 0);
    AllTargetsAt(CLAIMS, 3, 1);
    AllTargetsAt(CLAIMS, 3, 2);
  }

  lemma MutualOrigins(all: seq<seq<nat>>, before: Links)
    requires all == [[], [2], [1]] && before == [None, None, None]
    ensures Origins(all, before, 3) == [None, Some(2), Some(1)]
  {
    assert Origins(all, before, 1) == [None, None, None];
    assert Origins(all, before, 2) == [None, None, Some(1)];
  }

  /** Two records whose attribute lists name each other become each other's origin, and the
      search for the name or the size of either never ends. */
  lemma MutualOriginsNeverEnd()
    ensures Indexed(CLAIMS)
    ensures var origins := Origins(AllTargets(CLAIMS, 3), [None, None, None], 3);
      && Closed(origins)
      && !Ends(origins, 1) && !Ends(origins, 2)
  {
    ClaimsAreMutual();
    hide AllTargets, Origins;
    var origins := Origins(AllTargets(CLAIMS, 3), [None, None, None], 3);
    MutualOrigins(AllTargets(CLAIMS, 3), [None, None, None]);
    MutualLinksNeverEnd(origins, 1, 2);
    MutualLinksNeverEnd(origins, 2, 1);
  }
}

/** What the links of the $MFT table mean, by the fields of the records alone. */
module MftLinks {
  import opened Machine
  import opened Chains
  import opened MftTableModel

  // ----- Linked records

  /** A record with this entry, and with the sequence number or its successor, stands in slot j;
      entry 0, which blank slots have as well, is in the first slot only. */
  predicate FoundAt(slots: seq<Header>, entry: uint32, seqNo: uint16, j: nat)
    requires j < |slots|
  {
    slots[j].entry == entry && (slots[j].seqNo - seqNo) % 0x1_0000 <= 1 && (entry == 0 ==> j == 0)
  }

  lemma LookupIs(slots: seq<Header>, entry: uint32, seqNo: uint16, j: nat)
    requires Indexed(slots) && j < |slots|
    ensures Lookup(slots, entry, seqNo) == Returns(j) <==> FoundAt(slots, entry, seqNo, j)
  {
    if entry != 0 {
      LookupIsScan(slots, entry, seqNo);
      assert Refers(slots[j], entry, seqNo) <==> FoundAt(slots, entry, seqNo, j);
    }
  }

  /** Reference m of slot i is to the record in slot j, and not to a record with the number of
      slot i itself. */
  predicate LeadsTo(slots: seq<Header>, i: nat, m: nat, j: nat)
    requires i < |slots| && m < |slots[i].references| && j < |slots|
  {
    var r := slots[i].references[m];
    r.entry != slots[i].entry && FoundAt(slots, r.entry, r.seqNo, j)
  }

  lemma TargetIs(slots: seq<Header>, i: nat, m: nat, j: nat)
    requires Indexed(slots) && i < |slots| && m < |slots[i].references|
    ensures j in Target(slots, i, m) <==> j < |slots| && LeadsTo(slots, i, m, j)
  {
    var r := slots[i].references[m];
    hide Lookup, FoundAt, Indexed;
    if j < |slots| {
      LookupIs(slots, r.entry, r.seqNo, j);
    }
  }

  lemma NoTarget(slots: seq<Header>, i: nat, m: nat)
    requires Indexed(slots) && i < |slots| && m < |slots[i].references|
    requires Target(slots, i, m) == []
    ensures forall j :: 0 <= j < |slots| ==> !LeadsTo(slots, i, m, j)
  {
    hide Target, Indexed;
    forall j | 0 <= j < |slots| ensures !LeadsTo(slots, i, m, j) {
      TargetIs(slots, i, m, j);
    }
  }

  lemma {:induction false} ResolvedIff(slots: seq<Header>, i: nat, n: nat, j: nat)
    requires Indexed(slots) && i < |slots| && n <= |slots[i].references|
    ensures j in Resolved(slots, i, n) <==> j < |slots| && exists m :: 0 <= m < n && LeadsTo(slots, i, m, j)
  {
    hide Target, LeadsTo;
    if n > 0 {
      ResolvedIff(slots, i, n - 1, j);
      TargetIs(slots, i, n - 1, j);
    }
  }

  /** The linked records of a slot are exactly those that one of its references leads to. */
  lemma TargetsIff(slots: seq<Header>, i: nat, j: nat)
    requires Indexed(slots) && i < |slots|
    ensures j in Targets(slots, i)
       <==> j < |slots| && exists m :: 0 <= m < |slots[i].references| && LeadsTo(slots, i, m, j)
  {
    ResolvedIff(slots, i, |slots[i].references|, j);
  }

  /** These places of references ascend, and each leads to the linked record of its rank. */
  predicate Ranked(slots: seq<Header>, i: nat, places: seq<nat>, n: nat, targets: seq<nat>)
    requires i < |slots| && n <= |slots[i].references|
  {
    && |places| == |targets|
    && (forall k :: 0 <= k < |places| ==>
          places[k] < n && targets[k] < |slots| && LeadsTo(slots, i, places[k], targets[k]))
    && (forall k, l :: 0 <= k < l < |places| ==> places[k] < places[l])
  }

  /** Every reference among the first n that leads anywhere is at one of these places. */
  predicate Covered(slots: seq<Header>, i: nat, places: seq<nat>, n: nat)
    requires i < |slots| && n <= |slots[i].references|
  {
    forall m, j :: 0 <= m < n && 0 <= j < |slots| && LeadsTo(slots, i, m, j) ==> m in places
  }

  lemma RankOneMore(slots: seq<Header>, i: nat, places: seq<nat>, n: nat, targets: seq<nat>, j: nat)
    requires i < |slots| && n < |slots[i].references| && j < |slots|
    requires Ranked(slots, i, places, n, targets) && Covered(slots, i, places, n) && LeadsTo(slots, i, n, j)
    ensures Ranked(slots, i, places + [n], n + 1, targets + [j]) && Covered(slots, i, places + [n], n + 1)
  {
    hide LeadsTo;
  }

  lemma RankNoMore(slots: seq<Header>, i: nat, places: seq<nat>, n: nat, targets: seq<nat>)
    requires i < |slots| && n < |slots[i].references|
    requires Ranked(slots, i, places, n, targets) && Covered(slots, i, places, n)
    requires forall j :: 0 <= j < |slots| ==> !LeadsTo(slots, i, n, j)
    ensures Ranked(slots, i, places, n + 1, targets) && Covered(slots, i, places, n + 1)
  {
    hide LeadsTo;
  }

  lemma {:induction false} ResolvedInOrder(slots: seq<Header>, i: nat, n: nat) returns (places: seq<nat>)
    requires Indexed(slots) && i < |slots| && n <= |slots[i].references|
    ensures Ranked(slots, i, places, n, Resolved(slots, i, n)) && Covered(slots, i, places, n)
  {
    places := [];
    if n > 0 {
      places := ResolvedInOrder(slots, i, n - 1);
      hide Ranked, Covered, LeadsTo, Target, Indexed;
      var before, target := Resolved(slots, i, n - 1), Target(slots, i, n - 1);
      if target == [] {
        NoTarget(slots, i, n - 1);
        assert before + target == before;
        RankNoMore(slots, i, places, n - 1, before);
      } else {
        TargetIs(slots, i, n - 1, target[0]);
        assert target == [target[0]];
        RankOneMore(slots, i, places, n - 1, before, target[0]);
        places := places + [n - 1];
      }
    }
  }

  /** They stand in the order of the references, one for each reference that leads anywhere. */
  lemma TargetsInOrder(slots: seq<Header>, i: nat) returns (places: seq<nat>)
    requires Indexed(slots) && i < |slots|
    ensures Ranked(slots, i, places, |slots[i].references|, Targets(slots, i))
    ensures Covered(slots, i, places, |slots[i].references|)
  {
    places := ResolvedInOrder(slots, i, |slots[i].references|);
  }

  lemma {:induction false} NeverItself(slots: seq<Header>, i: nat, n: nat)
    requires i < |slots| && n <= |slots[i].references|
    ensures i !in Resolved(slots, i, n)
  {
    if n > 0 {
      NeverItself(slots, i, n - 1);
    }
  }

  /** No record is linked to itself, whatever its references, and none is its own origin. */
  lemma NoOwnOrigin(slots: seq<Header>, before: Links, i: nat)
    requires |before| == |slots| && NoLinks(before) && i < |slots|
    ensures i !in Targets(slots, i)
    ensures Origins(AllTargets(slots, |slots|), before, |slots|)[i] != Some(i)
  {
    NeverItself(slots, i, |slots[i].references|);
    AllTargetsAt(slots, |slots|, i);
    OriginIsLastReferrer(AllTargets(slots, |slots|), before, |slots|, i);
  }

  /** A record whose attribute list names itself. */
  lemma SelfReferenceIsIgnored()
    ensures Target([BLANK, Header(1, 1, [], [Reference(1, 1)])], 1, 0) == []
  {
  }

  // ----- Parents

  /** The first file name of slot i gives slot j as the parent, by its entry, cut to 32 bits,
      and its sequence number. */
  predicate IsParent(slots: seq<Header>, i: nat, j: nat)
    requires i < |slots| && j < |slots|
  {
    && slots[i].fileNames != []
    && FoundAt(slots, slots[i].fileNames[0].parRef % 0x1_0000_0000, slots[i].fileNames[0].parSeq, j)
  }

  /** In an indexed table, the parent of a slot is exactly the record that its first file name
      gives; it stays what it was if there is none. */
  lemma ParentsIff(slots: seq<Header>, before: Links, i: nat)
    requires Indexed(slots) && |before| == |slots| && i < |slots|
    ensures var parents := Parents(slots, before, |slots|);
      && (forall j :: 0 <= j < |slots| && IsParent(slots, i, j) ==> parents[i] == Some(j))
      && ((forall j :: 0 <= j < |slots| ==> !IsParent(slots, i, j)) ==> parents[i] == before[i])
  {
    if slots[i].fileNames != [] {
      var entry: uint32, seqNo := slots[i].fileNames[0].parRef % 0x1_0000_0000, slots[i].fileNames[0].parSeq;
      hide Lookup, FoundAt, Indexed;
      forall j | 0 <= j < |slots|
        ensures Lookup(slots, entry, seqNo) == Returns(j) <==> FoundAt(slots, entry, seqNo, j)
      {
        LookupIs(slots, entry, seqNo, j);
      }
      if Lookup(slots, entry, seqNo).Returns? {
        assert IsParent(slots, i, Lookup(slots, entry, seqNo).value);
      }
    }
  }

  // ----- Names

  /** The last file name with this name space. */
  function LastIn(fileNames: seq<FileName>, space: byte): Option<string> {
    if fileNames == [] then None
    else
      var last := fileNames[|fileNames| - 1];
      if last.space == space then Some(last.name) else LastIn(fileNames[..|fileNames| - 1], space)
  }

  lemma {:induction false} NameInIs(fileNames: seq<FileName>)
    ensures NameIn(fileNames, "POSIX") == LastIn(fileNames, 0)
    ensures NameIn(fileNames, "Win32") == LastIn(fileNames, 1)
    ensures NameIn(fileNames, "Dos") == LastIn(fileNames, 2)
    ensures NameIn(fileNames, "Win32 & Dos") == LastIn(fileNames, 3)
  {
    if fileNames != [] {
      NameInIs(fileNames[..|fileNames| - 1]);
      SpaceNamesDiffer();
    }
  }

  lemma SpaceNamesDiffer()
    ensures |"POSIX"| == |"Win32"| && "POSIX"[0] != "Win32"[0]
    ensures |"Dos"| < |"Win32"| < |"Win32 & Dos"|
  {
  }

  /** Name space 1 comes first, then 3, then 0, then 2, and a dash if there is none of them. */
  lemma PreferredName(fileNames: seq<FileName>)
    ensures OwnName(fileNames, 0)
         == if LastIn(fileNames, 1).Some? then LastIn(fileNames, 1).value
            else if LastIn(fileNames, 3).Some? then LastIn(fileNames, 3).value
            else if LastIn(fileNames, 0).Some? then LastIn(fileNames, 0).value
            else if LastIn(fileNames, 2).Some? then LastIn(fileNames, 2).value
            else "-"
  {
    NameInIs(fileNames);
    hide NameIn, LastIn;
    assert OwnName(fileNames, 4) == "-";
    assert OwnName(fileNames, 3) ==
           if NameIn(fileNames, "Dos").Some? then NameIn(fileNames, "Dos").value else OwnName(fileNames, 4);
    assert OwnName(fileNames, 2) ==
           if NameIn(fileNames, "POSIX").Some? then NameIn(fileNames, "POSIX").value else OwnName(fileNames, 3);
  }

  /** A record has the name of its origin, or its own name without one. */
  lemma NameOfOrigin(slots: seq<Header>, origins: Links, i: nat)
    requires |origins| == |slots| && Closed(origins) && i < |slots| && Ends(origins, i)
    ensures Name(slots, origins, i)
         == if origins[i].Some? then Name(slots, origins, origins[i].value) else OwnName(slots[i].fileNames, 0)
  {
    AncestorsOfParent(origins, i);
    if origins[i].Some? {
      LastOfParent(origins, i);
    }
  }
}

/** The range of the root of the directory tree, which differs from all others. */
module DirectoryTreeRoot {
  import opened Machine
  import opened DirectoryTreeModel

  /** The root does not count itself: after the first record its range is 0..0, which leaves
      out the record's own entry. */
  lemma RootIsOutsideItsRange(r: Record)
    requires r.entry >= 5
    ensures AddAll([], [r]) == [Slot(r, -1, 0, 0)]
    ensures var root := AddAll([], [r])[0]; !(root.lo <= root.record.entry <= root.hi)
  {
    assert [r][..0] == [];
    assert AddAll([], []) == [];
  }

  /** The range of the root covers the root's own entry if and only if some other slot has an
      entry as large. */
  lemma RootCoversItselfIff(s: State)
    requires Good(s) && s != [] && s[0].record.entry > 0
    ensures s[0].lo <= s[0].record.entry <= s[0].hi
       <==> exists j :: 0 < j < |s| && s[j].record.entry >= s[0].record.entry
  {
  }

  /** The range of the root is never the exact range of the tree when all entries are 5 or
      more, as all entries that are added from a table are. */
  lemma RootIsNeverExact(s: State)
    requires Good(s) && s != []
    requires FiveOrMore(s)
    ensures !ExactRange(s, 0)
  {
  }

  ghost predicate FiveOrMore(s: State) {
    forall j :: 0 <= j < |s| ==> s[j].record.entry >= 5
  }

  lemma AddStaysFiveOrMore(s: State, r: Record)
    requires Good(s) && FiveOrMore(s) && r.entry >= 5
    ensures FiveOrMore(Add(s, r))
  {
    if s != [] {
      PointsAreFolders(s, 0, r);
      AttachAllIs(s, Points(s, 0, r), r);
    }
  }

  lemma {:induction false} EntriesAreFiveOrMore(records: seq<Record>)
    ensures FiveOrMore(AddAll([], records))
    decreases |records|
  {
    assert FiveOrMore([]);
    hide FiveOrMore, Add;
    if records != [] {
      var last := |records| - 1;
      EntriesAreFiveOrMore(records[..last]);
      if records[last].entry >= 5 {
        AddStaysFiveOrMore(AddAll([], records[..last]), records[last]);
      }
    }
  }

  /** So no tree that is built has an exact range at its root. */
  lemma BuiltRootIsNeverExact(records: seq<Record>)
    requires AddAll([], records) != []
    ensures !ExactRange(AddAll([], records), 0)
  {
    EntriesAreFiveOrMore(records);
    RootIsNeverExact(AddAll([], records));
  }
}

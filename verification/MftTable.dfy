/** The $MFT table on the heap: records that point to their parent, to the record their
    attribute list belongs to, and to the records that list leads to.  Ghost fields hold
    the same links as slot numbers. */
module MftTable {
  import opened Machine
  import opened Chains
  import opened MftTableModel

  class Record {
    var header: Header
    var parent: Record?
    var origin: Record?
    var linkedRecords: seq<Record>
    var i30Size: uint64

    ghost const slot: nat

    constructor (ghost slot: nat)
      ensures this.slot == slot
      ensures header == BLANK && parent == null && origin == null && linkedRecords == [] && i30Size == 0
    {
      this.slot := slot;
      header, parent, origin, linkedRecords, i30Size := BLANK, null, null, [], 0;
    }

    /** The pointers of this record spell out these slot numbers. */
    ghost predicate Spells(slot: Header, up: Option<nat>, from: Option<nat>, links: seq<nat>, records: seq<Record>)
      reads this`header, this`parent, this`origin, this`linkedRecords
    {
      && header == slot
      && PointsTo(parent, up, records)
      && PointsTo(origin, from, records)
      && |linkedRecords| == |links|
      && forall k :: 0 <= k < |links| ==> links[k] < |records| && linkedRecords[k] == records[links[k]]
    }

    /** The file names by name space; a later name replaces an earlier one. */
    method GetFnames() returns (names: map<string, string>)
      ensures forall space {:trigger NameIn(header.fileNames, space)} ::
        NameIn(header.fileNames, space) == if space in names then Some(names[space]) else None
    {
      names := map[];
      for k := 0 to |header.fileNames|
        invariant forall space {:trigger NameIn(header.fileNames[..k], space)} ::
          NameIn(header.fileNames[..k], space) == if space in names then Some(names[space]) else None
      {
        var name := header.fileNames[k];
        assert header.fileNames[..k + 1][..k] == header.fileNames[..k];
        names := names[SpaceName(name.space) := name.name];
      }
      assert header.fileNames[..|header.fileNames|] == header.fileNames;
    }

    /** The name of the record at the end of the origin chain. */
    method GetFname(ghost table: Table, ghost i: nat) returns (name: string)
      requires table.Valid() && i < |table.records| && table.records[i] == this
      requires Ends(table.origins, i)
      ensures name == Name(table.slots, table.origins, i)
      decreases |Ancestors(table.origins, i)|
    {
      AncestorsOfParent(table.origins, i);
      assert table.Spelled(i);
      if origin != null {
        LastOfParent(table.origins, i);
        name := origin.GetFname(table, table.origins[i].value);
        return;
      }
      var names := GetFnames();
      for k := 0 to |PREFERENCE|
        invariant OwnName(header.fileNames, k) == OwnName(header.fileNames, 0)
      {
        if PREFERENCE[k] in names {
          assert NameIn(header.fileNames, PREFERENCE[k]) == Some(names[PREFERENCE[k]]);
          name := names[PREFERENCE[k]];
          return;
        }
        assert NameIn(header.fileNames, PREFERENCE[k]) == None;
      }
      name := "-";
    }

    /** The size of the record at the end of the origin chain. */
    method GetLogicalFileSize(ghost table: Table, ghost i: nat) returns (size: int)
      requires table.Valid() && i < |table.records| && table.records[i] == this
      requires Ends(table.origins, i)
      ensures var last := table.records[Last(table.origins, i)];
        size == ToInt64(if last.header.fileNames != [] && last.header.fileNames[0].realSize != 0
                        then last.header.fileNames[0].realSize else last.i30Size)
      decreases |Ancestors(table.origins, i)|
    {
      AncestorsOfParent(table.origins, i);
      assert table.Spelled(i);
      if origin != null {
        LastOfParent(table.origins, i);
        size := origin.GetLogicalFileSize(table, table.origins[i].value);
        return;
      }
      if header.fileNames != [] && header.fileNames[0].realSize != 0 {
        return ToInt64(header.fileNames[0].realSize);
      }
      size := ToInt64(i30Size);
    }

    /** Walks up to the root, entry 5, and returns the names met, outermost first. */
    method GetFullPath(ghost table: Table, ghost i: nat) returns (path: seq<string>)
      requires table.Valid() && i < |table.records| && table.records[i] == this
      requires Ends(table.UpLinks(), i)
      requires forall a :: a in Ancestors(table.UpLinks(), i) ==> Ends(table.origins, a)
      ensures path == Path(table.slots, table.parents, table.origins, i)
    {
      ghost var up := table.UpLinks();
      ghost var at: nat := i;
      path := [];
      var parent := this.parent;
      while parent != null && parent.header.entry != 5
        invariant at < |table.records| && Ends(up, at) && parent == table.records[at].parent
        invariant forall a :: a in Ancestors(up, at) ==> Ends(table.origins, a)
        invariant Path(table.slots, table.parents, table.origins, i)
               == Path(table.slots, table.parents, table.origins, at) + path
        decreases |Ancestors(up, at)|
      {
        assert table.Spelled(at) && table.Spelled(table.parents[at].value);
        PathStep(table.slots, table.parents, table.origins, i, at, path);
        at := table.parents[at].value;
        var name := parent.GetFname(table, at);
        path := [name] + path;
        parent := parent.parent;
      }
      assert table.Spelled(at) && (parent != null ==> table.Spelled(table.parents[at].value));
      PathOfParent(table.slots, table.parents, table.origins, at);
    }
  }

  class Table {
    var records: seq<Record>
    ghost var slots: seq<Header>
    ghost var parents: Links
    ghost var origins: Links
    ghost var linked: seq<seq<nat>>

    constructor ()
      ensures Valid() && records == []
    {
      records, slots, parents, origins, linked := [], [], [], [], [];
    }

    ghost predicate Valid()
      reads this, records`header, records`parent, records`origin, records`linkedRecords
    {
      && |slots| == |parents| == |origins| == |linked| == |records|
      && Closed(parents) && Closed(origins)
      && (forall i {:trigger records[i].slot} :: 0 <= i < |records| ==> records[i].slot == i)
      && (forall i {:trigger Spelled(i)} :: 0 <= i < |records| ==> Spelled(i))
    }

    ghost predicate Spelled(i: nat)
      requires i < |records| && |slots| == |parents| == |origins| == |linked| == |records|
      reads this, records`header, records`parent, records`origin, records`linkedRecords
    {
      records[i].Spells(slots[i], parents[i], origins[i], linked[i], records)
    }

    ghost function UpLinks(): Links
      requires Valid()
      reads this, records`header, records`parent, records`origin, records`linkedRecords
    {
      Up(slots, parents)
    }

    /** Places the parsed records in new slots, one for each whole chunk.  A torn last chunk is
        read through the capacity of the data, or panics where that ends. */
    method ProcessRecords(chunks: seq<Chunk>, size: nat, beyond: bool) returns (outcome: Outcome<()>)
      requires size <= |chunks| <= size + 1 && (beyond ==> |chunks| == size)
      modifies this
      ensures !outcome.Fails? && (outcome.Panics? <==> beyond || Placed(chunks, size, |chunks|).None?)
      ensures outcome.Returns? ==>
        && Valid() && fresh(records)
        && slots == Placed(chunks, size, |chunks|).value
        && NoLinks(parents) && NoLinks(origins)
        && forall i :: 0 <= i < |linked| ==> linked[i] == []
    {
      var made: seq<Record> := [];
      for i := 0 to size
        invariant |made| == i && (forall k :: 0 <= k < i ==> fresh(made[k]) && made[k].header == BLANK)
        invariant forall k :: 0 <= k < i ==>
          made[k].parent == null && made[k].origin == null && made[k].linkedRecords == []
        invariant forall k :: 0 <= k < i ==> made[k].slot == k
      {
        var record := new Record(i);
        made := made + [record];
      }
      records := made;
      slots := seq(size, _ => BLANK);
      parents := seq(size, _ => None);
      origins := parents;
      linked := seq(size, _ => []);
      for i := 0 to |chunks|
        invariant Valid() && records == made && |records| == size
        invariant NoLinks(parents) && NoLinks(origins) && forall k :: 0 <= k < |linked| ==> linked[k] == []
        invariant Placed(chunks, size, i) == Some(slots)
      {
        if chunks[i].Parsed? {
          if chunks[i].header.entry >= |records| {
            PlacedPanicsIff(chunks, size, |chunks|);
            return Panics;
          }
          SetHeader(chunks[i].header.entry, chunks[i].header);
        }
      }
      outcome := if beyond then Panics else Returns(());
    }

    method SetHeader(idx: nat, header: Header)
      requires Valid() && idx < |records|
      modifies records`header, this`slots
      ensures Valid() && slots == old(slots)[idx := header]
    {
      records[idx].header := header;
      slots := slots[idx := header];
      forall i | 0 <= i < |records| ensures Spelled(i) {
        assert old(Spelled(i)) && records[i].slot == i && records[idx].slot == idx;
      }
    }

    /** Finds a record by entry and sequence number. */
    method GetRecord(entry: uint32, seqNo: uint16) returns (found: Outcome<Record>)
      requires Valid()
      ensures match Lookup(slots, entry, seqNo)
        case Returns(j) => found == Returns(records[j])
        case Fails => found == Fails
        case Panics => found == Panics
    {
      if entry < |records| {
        assert Spelled(entry);
        if records[entry].header.entry == entry {
          if Sub16(records[entry].header.seqNo, seqNo) > 1 {
            return Fails;
          } else {
            return Returns(records[entry]);
          }
        }
      } else {
        for idx := 0 to |records|
          invariant !Occurs(slots, entry, idx)
        {
          assert Spelled(idx);
          if records[idx].header.entry == entry {
            OccursIs(slots, entry, |records|);
            assert slots[idx].entry == entry;
            return Panics;
          }
        }
      }
      found := Fails;
    }

    /** Sets every parent that can be found. */
    method FindParentRecords() returns (panicked: bool)
      requires Valid()
      modifies records`parent, this`parents
      ensures Valid()
      ensures Indexed(slots) ==> !panicked
      ensures !panicked ==> parents == Parents(slots, old(parents), |records|)
    {
      for idx := 0 to |records|
        invariant Valid()
        invariant parents == Parents(slots, old(parents), idx)
      {
        assert Spelled(idx);
        var names := records[idx].header.fileNames;
        if names != [] {
          var found := GetRecord(ToUint32(names[0].parRef), names[0].parSeq);
          if found.Panics? {
            if Indexed(slots) {
              LookupDoesNotPanic(slots, ToUint32(names[0].parRef), names[0].parSeq);
            }
            return true;
          }
          if found.Returns? {
            SetParent(idx, found.value, ParentLookup(slots, idx).value);
          }
        }
      }
      panicked := false;
    }

    method SetParent(idx: nat, parent: Record, ghost j: nat)
      requires Valid() && idx < |records| && j < |records| && records[j] == parent
      modifies records`parent, this`parents
      ensures Valid()
      ensures parents == old(parents)[idx := Some(j)]
    {
      records[idx].parent := parent;
      parents := parents[idx := Some(j)];
      forall i | 0 <= i < |records| ensures Spelled(i) {
        assert old(Spelled(i)) && records[i].slot == i && records[idx].slot == idx;
      }
    }

    /** Follows every attribute list, and tells each record found where it was found from.
        The ghost argument lists the slots found, per slot. */
    method CreateLinkedRecords(ghost all: seq<seq<nat>>) returns (panicked: bool)
      requires Valid() && all == AllTargets(slots, |slots|)
      modifies records`linkedRecords, records`origin, this`linked, this`origins
      ensures Valid()
      ensures Indexed(slots) ==> !panicked
      ensures !panicked ==>
        && origins == Origins(all, old(origins), |records|)
        && linked == Linked(old(linked), all, |records|)
    {
      ghost var before, links := origins, linked;
      for idx := 0 to |records|
        invariant Valid()
        invariant origins == Origins(all, before, idx)
        invariant linked == Linked(links, all, idx)
      {
        AllTargetsAt(slots, |slots|, idx);
        panicked := LinkReferences(idx, all[idx]);
        if panicked {
          return;
        }
      }
      panicked := false;
    }

    /** The inner loop, over the references of one record. */
    method LinkReferences(idx: nat, ghost targets: seq<nat>) returns (panicked: bool)
      requires Valid() && idx < |records| && targets == Targets(slots, idx)
      modifies records`linkedRecords, records`origin, this`linked, this`origins
      ensures Valid()
      ensures Indexed(slots) ==> !panicked
      ensures !panicked ==>
        && origins == Claimed(old(origins), idx, targets)
        && linked == AppendAt(old(linked), idx, targets)
    {
      ghost var before, links := origins, linked;
      assert Spelled(idx);
      for m := 0 to |records[idx].header.references|
        invariant Valid()
        invariant origins == OriginsAfter(slots, before, idx, m)
        invariant linked == ListsAfter(slots, links, idx, m)
      {
        panicked := LinkReference(idx, m, Target(slots, idx, m));
        if panicked {
          return;
        }
      }
      OriginsOneByOne(slots, before, idx, |slots[idx].references|);
      ListsOneByOne(slots, links, idx, |slots[idx].references|);
      panicked := false;
    }

    /** One turn of that loop. */
    method LinkReference(idx: nat, m: nat, ghost target: seq<nat>) returns (panicked: bool)
      requires Valid() && idx < |records| && m < |slots[idx].references|
      requires target == Target(slots, idx, m)
      modifies records`linkedRecords, records`origin, this`linked, this`origins
      ensures Valid()
      ensures Indexed(slots) ==> !panicked
      ensures !panicked ==>
        && origins == Claimed(old(origins), idx, target)
        && linked == AppendAt(old(linked), idx, target)
    {
      assert Spelled(idx);
      var reference := records[idx].header.references[m];
      panicked := false;
      AppendIs(linked, idx, [], []);
      ClaimedIs(origins, idx, [], []);
      if records[idx].header.entry == reference.entry {
        return;
      }
      var found := GetRecord(reference.entry, reference.seqNo);
      if found.Panics? {
        if Indexed(slots) {
          LookupDoesNotPanic(slots, reference.entry, reference.seqNo);
        }
        return true;
      }
      if found.Fails? {
        return;
      }
      ghost var j := Lookup(slots, reference.entry, reference.seqNo).value;
      ClaimedIs(origins, idx, [j], []);
      Link(idx, found.value, j);
    }

    method Link(idx: nat, target: Record, ghost j: nat)
      requires Valid() && idx < |records| && j < |records| && records[j] == target
      modifies records`linkedRecords, records`origin, this`linked, this`origins
      ensures Valid()
      ensures origins == old(origins)[j := Some(idx)]
      ensures linked == AppendAt(old(linked), idx, [j])
    {
      assert records[j].slot == j;
      target.origin := records[idx];
      records[idx].linkedRecords := records[idx].linkedRecords + [target];
      origins := origins[j := Some(idx)];
      linked := linked[idx := linked[idx] + [j]];
      forall i | 0 <= i < |records| ensures Spelled(i) {
        assert old(Spelled(i)) && records[i].slot == i && records[idx].slot == idx;
      }
    }
  }

  ghost predicate PointsTo(record: Record?, link: Option<nat>, records: seq<Record>) {
    match link
    case None => record == null
    case Some(j) => j < |records| && record == records[j]
  }
}

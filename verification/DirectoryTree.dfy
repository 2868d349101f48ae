/** The directory tree on the heap: nodes with parent and child pointers and a cached
    entry range, updated in place.  The ghost fields of a tree list its nodes in order of
    creation and hold the value (DirectoryTreeModel.State) that the pointers spell out. */
module DirectoryTree {
  import opened Machine
  import opened DirectoryTreeModel

  class Node {
    const record: Record
    var parent: Node?
    var children: seq<Node>
    var minChildEntry: uint32
    var maxChildEntry: uint32

    constructor (record: Record, parent: Node?, entry: uint32)
      ensures this.record == record && this.parent == parent && children == []
      ensures minChildEntry == entry && maxChildEntry == entry
    {
      this.record := record;
      this.parent := parent;
      children := [];
      minChildEntry, maxChildEntry := entry, entry;
    }

    predicate Contains(entry: uint32)
      reads this
    {
      minChildEntry <= entry <= maxChildEntry
    }

    /** The pointers of this node spell out slot i of s. */
    ghost predicate Spells(i: nat, s: State, nodes: seq<Node>)
      requires i < |s| == |nodes|
      reads this
    {
      && record == s[i].record
      && -1 <= s[i].parent < |nodes|
      && parent == (if s[i].parent == -1 then null else nodes[s[i].parent])
      && |children| == |Kids(s, i)|
      && (forall c :: 0 <= c < |children| ==> children[c] == nodes[Kids(s, i)[c]])
      && minChildEntry == s[i].lo
      && maxChildEntry == s[i].hi
    }

    /** Widens the range of this node, which is slot at. */
    method Widen(entry: uint32, ghost tree: Tree, ghost at: nat)
      requires tree.Spelled()
      requires at < |tree.nodes| && tree.nodes[at] == this
      modifies tree`state, this`minChildEntry, this`maxChildEntry
      ensures tree.Spelled()
      ensures tree.state == old(tree.state)[at := Widened(old(tree.state[at]), entry)]
    {
      ghost var s, nodes := tree.state, tree.nodes;
      assert nodes[at].Spells(at, s, nodes);
      if minChildEntry > entry {
        minChildEntry := entry;
      }
      if maxChildEntry < entry {
        maxChildEntry := entry;
      }
      tree.state := s[at := Widened(s[at], entry)];
      forall i | 0 <= i < |nodes| ensures nodes[i].Spells(i, tree.state, nodes) {
        assert old(nodes[i].Spells(i, s, nodes));
        SameKids(s, tree.state, i, |s|);
      }
    }

    /** Walks to the root and widens every range on the way. */
    method UpdateEntryRange(entry: uint32, ghost tree: Tree, ghost k: nat)
      requires tree.Spelled() && ParentsFirst(tree.state)
      requires k < |tree.nodes| && tree.nodes[k] == this
      modifies tree`state, tree.nodes`minChildEntry, tree.nodes`maxChildEntry
      ensures tree.Spelled()
      ensures tree.state == WidenUp(old(tree.state), k, entry)
    {
      var node: Node? := this;
      ghost var at: int := k;
      while node != null
        invariant tree.Spelled() && ParentsFirst(tree.state)
        invariant -1 <= at < |tree.nodes|
        invariant node == if at == -1 then null else tree.nodes[at]
        invariant WidenUp(tree.state, at, entry) == WidenUp(old(tree.state), k, entry)
        decreases at
      {
        assert tree.nodes[at].Spells(at, tree.state, tree.nodes);
        ghost var up := tree.state[at].parent;
        node.Widen(entry, tree, at);
        node, at := node.parent, up;
      }
    }

    /** Appends a node to the children of this node, which is slot k. */
    method AppendChild(childNode: Node, ghost tree: Tree, ghost k: nat)
      requires tree.Spelled()
      requires k < |tree.nodes| && tree.nodes[k] == this
      requires childNode !in tree.nodes && childNode.parent == this && childNode.children == []
      requires childNode.minChildEntry == childNode.maxChildEntry == childNode.record.entry
      requires forall j :: 0 <= j < |tree.state| ==> tree.state[j].parent < |tree.state|
      modifies tree`state, tree`nodes, this`children
      ensures tree.Spelled()
      ensures tree.nodes == old(tree.nodes) + [childNode]
      ensures tree.state
           == old(tree.state) + [Slot(childNode.record, k, childNode.record.entry, childNode.record.entry)]
    {
      ghost var s, nodes := tree.state, tree.nodes;
      children := children + [childNode];
      tree.nodes := nodes + [childNode];
      tree.state := s + [Slot(childNode.record, k, childNode.record.entry, childNode.record.entry)];
      forall i | 0 <= i < |tree.nodes| ensures tree.nodes[i].Spells(i, tree.state, tree.nodes) {
        SameKids(s, tree.state, i, |s|);
        if i < |nodes| {
          assert old(nodes[i].Spells(i, s, nodes));
        } else {
          NoKids(s, i, |s|);
        }
      }
    }

    /** Lists the children of this node. */
    method ShowChildren(ghost tree: Tree, ghost k: nat) returns (shown: seq<Record>)
      requires tree.Valid()
      requires k < |tree.nodes| && tree.nodes[k] == this
      ensures shown == ListedUpTo(tree.state, k, 0)
    {
      ghost var s, nodes := tree.state, tree.nodes;
      assert nodes[k].Spells(k, s, nodes);
      shown := [];
      for c := 0 to |children|
        invariant |shown| == c
        invariant forall i :: 0 <= i < c ==> shown[i] == s[Kids(s, k)[i]].record
      {
        assert nodes[Kids(s, k)[c]].Spells(Kids(s, k)[c], s, nodes);
        shown := shown + [children[c].record];
      }
      assert Kids(s, k) + OrderBelow(s, k, 0) == Kids(s, k);
    }

    /** Lists the children of this node, then descends into each of them. */
    method Descend(ghost tree: Tree, ghost k: nat) returns (shown: seq<Record>)
      requires tree.Valid()
      requires k < |tree.nodes| && tree.nodes[k] == this
      ensures shown == Listed(tree.state, k)
      decreases |tree.state| - k
    {
      ghost var s := tree.state;
      assert tree.nodes[k].Spells(k, s, tree.nodes);
      shown := ShowChildren(tree, k);
      for c := 0 to |children|
        invariant shown == ListedUpTo(s, k, c)
      {
        ListedNext(s, k, c);
        var below := children[c].Descend(tree, Kids(s, k)[c]);
        shown := shown + below;
      }
    }

    /** Attaches r below this node.  The ghost arguments say which slot of which tree this
        node is, and bound the slots below it. */
    method Insert(r: Record, ghost tree: Tree, ghost k: nat, ghost limit: nat)
      requires tree.Valid()
      requires k < |tree.nodes| && tree.nodes[k] == this
      requires Within(tree.state, k, limit)
      modifies tree, tree.nodes
      ensures tree.Spelled() && tree.Grown()
      ensures tree.state == Inserted(old(tree.state), k, r)
      decreases limit - k, 1
    {
      ghost var s := tree.state;
      assert tree.nodes[k].Spells(k, s, tree.nodes);
      if !IsFolder(record) {
        return;
      }
      if r.fileName.Some? {
        if IsChild(record, r) {
          AttachAllOne(s, k, r);
          var childNode := new Node(r, this, r.entry);
          UpdateEntryRange(r.entry, tree, k);
          AppendChild(childNode, tree, k);
        } else {
          InsertBelow(r, tree, k, limit);
        }
      }
    }

    /** The loop of Insert over the children. */
    method InsertBelow(r: Record, ghost tree: Tree, ghost k: nat, ghost limit: nat)
      requires tree.Valid()
      requires k < |tree.nodes| && tree.nodes[k] == this && r.fileName.Some?
      requires Within(tree.state, k, limit)
      modifies tree, tree.nodes
      ensures tree.Spelled() && tree.Grown()
      ensures tree.state == InsertedBelow(old(tree.state), k, |Kids(old(tree.state), k)|, r)
      decreases limit - k, 0, 1
    {
      hide Good, ParentsFirst, Within, Kids, InsertedBelow;
      ghost var s := tree.state;
      NothingInserted(s, k, r);
      assert tree.nodes[k].Spells(k, s, tree.nodes);
      var idx := 0;
      while idx < |children|
        invariant tree.Spelled() && tree.Grown()
        invariant idx <= |children| == |Kids(s, k)|
        invariant tree.state == InsertedBelow(s, k, idx, r)
      {
        InsertAt(r, idx, tree, k, limit, s);
        idx := idx + 1;
      }
    }

    /** One turn of that loop: child idx is asked only if its range contains the reference.
        The ghost argument s is the state before the loop. */
    method InsertAt(r: Record, idx: nat, ghost tree: Tree, ghost k: nat, ghost limit: nat, ghost s: State)
      requires Good(s) && k < |s| && idx < |children| == |Kids(s, k)| && r.fileName.Some?
      requires tree.Spelled() && tree.state == InsertedBelow(s, k, idx, r)
      requires tree.nodes[k] == this
      requires Within(s, k, limit)
      modifies tree, tree.nodes
      ensures tree.Spelled() && tree.Grown()
      ensures tree.state == InsertedBelow(s, k, idx + 1, r)
      ensures |children| == |Kids(s, k)|
      decreases limit - k, 0, 0
    {
      ghost var t, kid := tree.state, Kids(s, k)[idx];
      Turn(s, k, idx, r, limit);
      assert tree.nodes[k].Spells(k, t, tree.nodes);
      assert tree.nodes[kid].Spells(kid, t, tree.nodes);
      if children[idx].Contains(ToUint32(r.fileName.value.parRef)) {
        children[idx].Insert(r, tree, kid, limit);
        assert tree.nodes[k].Spells(k, tree.state, tree.nodes);
      }
    }
  }

  class Tree {
    var root: Node?
    ghost var nodes: seq<Node>
    ghost var state: State

    constructor ()
      ensures Valid() && state == []
    {
      root := null;
      nodes, state := [], [];
    }

    ghost predicate Spelled()
      reads this, nodes
    {
      && |nodes| == |state|
      && (forall i, j :: 0 <= i < j < |nodes| ==> nodes[i] != nodes[j])
      && (forall i {:trigger nodes[i].Spells(i, state, nodes)} ::
            0 <= i < |nodes| ==> nodes[i].Spells(i, state, nodes))
      && root == if nodes == [] then null else nodes[0]
    }

    ghost predicate Valid()
      reads this, nodes
    {
      Spelled() && Good(state)
    }

    /** Nodes are only ever added, and only new ones. */
    twostate predicate Grown()
      reads this
    {
      && (old(root) != null ==> root == old(root))
      && old(nodes) <= nodes
      && forall i :: |old(nodes)| <= i < |nodes| ==> fresh(nodes[i])
    }

    method AddRecord(r: Record)
      requires Valid()
      modifies this, nodes
      ensures Valid() && Grown()
      ensures state == Add(old(state), r)
    {
      AddKeepsGood(state, r);
      if root == null {
        PlantRoot(r);
      } else {
        assert Within(state, 0, |state|);
        root.Insert(r, this, 0, |state|);
      }
    }

    method PlantRoot(r: Record)
      requires Spelled() && nodes == []
      modifies this
      ensures Spelled() && Grown()
      ensures state == [Slot(r, -1, 0, 0)]
    {
      root := new Node(r, null, 0);
      nodes, state := [root], [Slot(r, -1, 0, 0)];
      NoKids(state, 0, 1);
    }

    method Build(records: seq<Record>)
      requires Valid()
      modifies this, nodes
      ensures Valid() && Grown()
      ensures state == AddAll(old(state), records)
    {
      for idx := 0 to |records|
        invariant Valid() && Grown()
        invariant state == AddAll(old(state), records[..idx])
      {
        assert records[..idx + 1][..idx] == records[..idx];
        if records[idx].entry < 5 {
          continue;
        }
        AddRecord(records[idx]);
      }
      assert records[..|records|] == records;
    }
  }
}

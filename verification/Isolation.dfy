/** Blocks do not see each other's writes (alloc.cpp:74-100, branch.cpp:237-245). */
module Isolation {
  import opened Options
  import opened TrieTypes
  import opened Children
  import opened Trie
  import opened TrieOps

  predicate NoChildOf(n: Node, b: BlockId) {
    n.Branch? ==> forall i :: 0 <= i < |n.children| ==> n.children[i].blk != b
  }

  /** No node of another block points to a node of b: nothing was built on b, or all of it is gone. */
  ghost predicate Exclusive(st: Store, b: BlockId) {
    forall id :: id in st && id.blk != b ==> NoChildOf(st[id], b)
  }

  /** The stores differ at most in nodes of b. */
  ghost predicate SameOutside(st: Store, st': Store, b: BlockId) {
    forall id: NodeId :: id.blk != b ==> SameAt(st, st', id)
  }

  lemma ConfinedOutside(st: Store, st': Store, path: seq<Byte>, b: BlockId)
    requires Confined(st, st', path, b)
    ensures SameOutside(st, st', b)
  {
  }

  lemma NextNotOf(cs: seq<Child>, nib: Byte, b: BlockId, n: Node)
    requires n.Branch? && n.children == cs && NoChildOf(n, b)
    ensures Next(cs, nib) != Some(b)
  {
    EntryIsMember(cs, nib);
  }

  /** Isolation: another block reads the same before and after. */
  lemma {:induction false} OthersUndisturbed(st: Store, st': Store, b: BlockId, id: NodeId, k: Hash)
    requires SameOutside(st, st', b) && Exclusive(st, b) && id.blk != b
    ensures Lookup(st', id, k) == Lookup(st, id, k)
    decreases ACCOUNT_SIZE - |id.path|
  {
    assert SameAt(st, st', id);
    if id in st && |id.path| < ACCOUNT_SIZE && st[id].Branch? {
      var cs, nib := st[id].children, k[|id.path|];
      NextNotOf(cs, nib, b, st[id]);
      var next := Next(cs, nib);
      hide Next, SameOutside, Exclusive;
      if next.Some? {
        OthersUndisturbed(st, st', b, Below(id, nib, next.value), k);
      }
    }
  }

  /** Writing under b leaves b exclusive. */
  lemma ExclusiveSelf(st: Store, st': Store, b: BlockId)
    requires SameOutside(st, st', b) && Exclusive(st, b)
    ensures Exclusive(st', b)
  {
    forall id | id in st' && id.blk != b ensures NoChildOf(st'[id], b) {
      assert SameAt(st, st', id);
    }
  }

  lemma InsertNoChildOf(n: Node, nib: Byte, b: BlockId, c: BlockId)
    requires n.Branch? && Sorted(n.children) && NoChildOf(n, c) && b != c
    ensures NoChildOf(Branch(n.commit, Insert(n.children, nib, b)), c)
  {
    var r := Insert(n.children, nib, b);
    hide Insert, Sorted;
    forall i | 0 <= i < |r| ensures r[i].blk != c {
      InsertMember(n.children, nib, b, r[i]);
    }
  }

  lemma ExclusiveSet(st: Store, c: BlockId, id: NodeId, n: Node)
    requires Exclusive(st, c) && NoChildOf(n, c)
    ensures Exclusive(st[id := n], c)
  {
  }

  /** Writing under b keeps every block that b was not built on exclusive. */
  lemma {:induction false} ReplaceExclusive(st: Store, id: NodeId, key: Hash, val: Hash, prev: Option<Hash>,
                                            b: BlockId, c: BlockId)
    requires Good(st) && Exclusive(st, c) && id.blk != c && b != c
    ensures Exclusive(ReplaceAt(st, id, key, val, prev, b).1, c)
    decreases ACCOUNT_SIZE - |id.path|
  {
    if id in st && |id.path| < ACCOUNT_SIZE {
      assert NodeOk(st, id, st[id]);
      var self := NodeId(id.path, b);
      if st[id].Leaf? {
        ExclusiveSet(st, c, self, ReplaceLeaf(st[id], |id.path|, key, val, prev, b).1);
      } else {
        var cs, nib := st[id].children, key[|id.path|];
        NextNotOf(cs, nib, c, st[id]);
        InsertNoChildOf(st[id], nib, b, c);
        var next := Next(cs, nib);
        hide Next, Exclusive, Good, Insert, Sorted;
        if next.Some? {
          var child := Below(id, nib, next.value);
          ReplaceExclusive(st, child, key, val, prev, b, c);
          ExclusiveSet(ReplaceAt(st, child, key, val, prev, b).1, c, self, Branch(st[id].commit, Insert(cs, nib, b)));
        }
      }
    }
  }

  lemma {:induction false} SplitExclusive(st: Store, path: seq<Byte>, b: BlockId, leaf: Node, key: Hash, c: BlockId)
    requires leaf.Leaf? && Exclusive(st, c) && b != c
    ensures Exclusive(SplitAt(st, path, b, leaf, key), c)
    decreases ACCOUNT_SIZE - |path|
  {
    if |path| < ACCOUNT_SIZE {
      var nib, old_ := key[|path|], leaf.path[|path|];
      InsertNoChildOf(Branch(0, []), nib, b, c);
      var one := Branch(0, Insert([], nib, b));
      InsertSorted([], nib, b);
      InsertNoChildOf(one, old_, b, c);
      hide Exclusive, Insert, Sorted;
      if nib == old_ {
        SplitExclusive(st, path + [nib], b, leaf, key, c);
        ExclusiveSet(SplitAt(st, path + [nib], b, leaf, key), c, NodeId(path, b), one);
      } else {
        var st1 := st[NodeId(path + [nib], b) := NewLeaf(key, b)];
        var st2 := st1[NodeId(path + [old_], b) := leaf];
        ExclusiveSet(st, c, NodeId(path + [nib], b), NewLeaf(key, b));
        ExclusiveSet(st1, c, NodeId(path + [old_], b), leaf);
        ExclusiveSet(st2, c, NodeId(path, b), Branch(0, Insert(one.children, old_, b)));
      }
    }
  }

  lemma {:induction false} CreateExclusive(st: Store, id: NodeId, key: Hash, b: BlockId, c: BlockId)
    requires Good(st) && Exclusive(st, c) && id.blk != c && b != c
    ensures Exclusive(CreateAt(st, id, key, b).1, c)
    decreases ACCOUNT_SIZE - |id.path|
  {
    if id in st && |id.path| < ACCOUNT_SIZE {
      assert NodeOk(st, id, st[id]);
      if st[id].Leaf? {
        SplitExclusive(st, id.path, b, st[id], key, c);
      } else {
        var cs, nib := st[id].children, key[|id.path|];
        NextNotOf(cs, nib, c, st[id]);
        InsertNoChildOf(st[id], nib, b, c);
        var next := Next(cs, nib);
        var child := Below(id, nib, if next.Some? then next.value else b);
        ExclusiveSet(st, c, child, NewLeaf(key, b));
        hide Next, Exclusive, Good, Insert, Sorted;
        var st1 := if next.Some? then CreateAt(st, child, key, b).1 else st[child := NewLeaf(key, b)];
        if next.Some? {
          CreateExclusive(st, child, key, b, c);
        }
        ExclusiveSet(st1, c, NodeId(id.path, b), Branch(st[id].commit, Insert(cs, nib, b)));
      }
    }
  }
}

/** Every node of a block hangs from the block's root by entries of that same block. Pruning and
    justifying rely on it: they follow only such entries (branch.cpp:425-441, 463-476).
 */
module Ownership {
  import opened Options
  import opened TrieTypes
  import opened Children
  import opened Trie
  import opened TrieOps

  /** The parent's entry for the last byte of the path leads to block b. */
  predicate OwnedAt(st: Store, path: seq<Byte>, b: BlockId)
    requires path != []
  {
    var parent, nib := NodeId(path[..|path| - 1], b), path[|path| - 1];
    parent in st && st[parent].Branch? && Next(st[parent].children, nib) == Some(b)
  }

  ghost predicate OwnedBelow(st: Store, path: seq<Byte>, b: BlockId) {
    forall id :: id in st && id.blk == b && path < id.path ==> OwnedAt(st, id.path, b)
  }

  ghost predicate Owned(st: Store, b: BlockId) {
    OwnedBelow(st, [], b)
  }

  lemma OwnedDeeper(st: Store, path: seq<Byte>, deeper: seq<Byte>, b: BlockId)
    requires OwnedBelow(st, path, b) && path <= deeper
    ensures OwnedBelow(st, deeper, b)
  {
    forall id | id in st && id.blk == b && deeper < id.path ensures OwnedAt(st, id.path, b) {
      PrefixTrans(path, deeper, id.path);
    }
  }

  /** A node of b below a node of b is reached by entries of b all the way. */
  lemma {:induction false} OwnedChain(st: Store, path: seq<Byte>, q: seq<Byte>, b: BlockId)
    requires OwnedBelow(st, path, b) && path < q && NodeId(q, b) in st
    ensures NodeId(path, b) in st && st[NodeId(path, b)].Branch? &&
            Next(st[NodeId(path, b)].children, q[|path|]) == Some(b)
    ensures NodeId(path + [q[|path|]], b) in st
    decreases |q|
  {
    assert OwnedAt(st, q, b);
    var p := q[..|q| - 1];
    if |q| == |path| + 1 {
      assert p == path && q == path + [q[|path|]];
    } else {
      assert path < p;
      hide Next, OwnedBelow;
      OwnedChain(st, path, p, b);
    }
  }

  /** The start of a descent that belongs to block b wherever b has a node. */
  ghost predicate OnOwnPath(st: Store, id: NodeId, b: BlockId) {
    NodeId(id.path, b) in st ==> id.blk == b
  }

  lemma OwnPathStep(st: Store, id: NodeId, nib: Byte, b: BlockId)
    requires OwnedBelow(st, id.path, b) && OnOwnPath(st, id, b) && id in st && st[id].Branch?
    requires Next(st[id].children, nib).Some?
    ensures OnOwnPath(st, Below(id, nib, Next(st[id].children, nib).value), b)
  {
    var p := id.path + [nib];
    if NodeId(p, b) in st {
      assert OwnedAt(st, p, b);
      assert p[..|p| - 1] == id.path;
    }
  }

  /** If b has no branch of its own here, it has nothing below. */
  lemma NothingBelow(st: Store, id: NodeId, b: BlockId, q: seq<Byte>)
    requires OwnedBelow(st, id.path, b) && OnOwnPath(st, id, b) && id in st
    requires id.blk != b || st[id].Leaf?
    requires id.path < q
    ensures NodeId(q, b) !in st
  {
    if NodeId(q, b) in st {
      OwnedChain(st, id.path, q, b);
    }
  }

  /** Ownership at a node depends only on what is at and below its parent. */
  lemma OwnedAtAgree(st: Store, st': Store, path: seq<Byte>, b: BlockId)
    requires path != [] && OwnedAt(st, path, b) && AgreeBelow(st, st', path[..|path| - 1])
    ensures OwnedAt(st', path, b)
  {
    assert SameAt(st, st', NodeId(path[..|path| - 1], b));
  }

  /** The last step of a write: the branch of b gains or keeps its entries of b. */
  lemma OwnedAfterChild(st: Store, st1: Store, id: NodeId, nib: Byte, b: BlockId, n: Node)
    requires Good(st) && id in st && st[id].Branch?
    requires OwnedBelow(st, id.path, b) && OnOwnPath(st, id, b)
    requires Confined(st, st1, id.path + [nib], b) && OwnedBelow(st1, id.path + [nib], b)
    requires n == Branch(st[id].commit, Insert(st[id].children, nib, b))
    ensures OwnedBelow(st1[NodeId(id.path, b) := n], id.path, b)
  {
    assert NodeOk(st, id, st[id]);
    var self := NodeId(id.path, b);
    var st' := st1[self := n];
    var cs := st[id].children;
    forall i | i in st' && i.blk == b && id.path < i.path ensures OwnedAt(st', i.path, b) {
      var q := i.path;
      var x := q[|id.path|];
      NextInsert(cs, nib, b, x);
      if x == nib {
        OwnedSameByte(st1, id.path, nib, b, n, q);
      } else {
        OwnedOtherByte(st, st1, id, nib, b, n, q);
      }
    }
  }

  lemma OwnedSameByte(st1: Store, path: seq<Byte>, nib: Byte, b: BlockId, n: Node, q: seq<Byte>)
    requires n.Branch? && Next(n.children, nib) == Some(b)
    requires OwnedBelow(st1, path + [nib], b)
    requires path < q && q[|path|] == nib && NodeId(q, b) in st1
    ensures OwnedAt(st1[NodeId(path, b) := n], q, b)
  {
    hide Next;
    if |q| == |path| + 1 {
      assert q[..|q| - 1] == path;
    } else {
      assert path + [nib] < q;
      assert OwnedAt(st1, q, b);
    }
  }

  lemma OwnedOtherByte(st: Store, st1: Store, id: NodeId, nib: Byte, b: BlockId, n: Node, q: seq<Byte>)
    requires id in st && st[id].Branch? && n.Branch?
    requires id.path < q && q[|id.path|] != nib && NodeId(q, b) in st1
    requires OwnedBelow(st, id.path, b) && OnOwnPath(st, id, b)
    requires Confined(st, st1, id.path + [nib], b)
    requires Next(n.children, q[|id.path|]) == Next(st[id].children, q[|id.path|])
    ensures OwnedAt(st1[NodeId(id.path, b) := n], q, b)
  {
    hide Next;
    var p := q[..|q| - 1];
    PrefixByte(id.path, nib, q);
    assert NodeId(q, b) in st;
    assert OwnedAt(st, q, b);
    if |q| == |id.path| + 1 {
      assert p == id.path;
    } else {
      assert p[|id.path|] == q[|id.path|];
      PrefixByte(id.path, nib, p);
    }
  }

  /** Replacing keeps ownership. */
  lemma {:induction false} ReplaceOwned(st: Store, id: NodeId, key: Hash, val: Hash, prev: Option<Hash>, b: BlockId)
    requires Good(st) && id in st && ReplaceAt(st, id, key, val, prev, b).0 == Ok
    requires OwnedBelow(st, id.path, b) && OnOwnPath(st, id, b)
    ensures OwnedBelow(ReplaceAt(st, id, key, val, prev, b).1, id.path, b)
    decreases ACCOUNT_SIZE - |id.path|
  {
    assert NodeOk(st, id, st[id]);
    var st' := ReplaceAt(st, id, key, val, prev, b).1;
    if st[id].Leaf? {
      hide OwnedBelow, Good;
      OwnedLeaf(st, id, b, st'[NodeId(id.path, b)]);
    } else {
      var cs, nib := st[id].children, key[|id.path|];
      NextOk(st, id, cs, nib);
      OwnPathStep(st, id, nib, b);
      var c := Below(id, nib, Next(cs, nib).value);
      hide OwnedBelow;
      OwnedDeeper(st, id.path, c.path, b);
      ReplaceOwned(st, c, key, val, prev, b);
      ReplaceConfined(st, c, key, val, prev, b);
      OwnedAfterChild(st, ReplaceAt(st, c, key, val, prev, b).1, id, nib, b, Branch(st[id].commit, Insert(cs, nib, b)));
    }
  }

  /** Where b has nothing below, setting its node there owns everything below. */
  lemma OwnedLeaf(st: Store, id: NodeId, b: BlockId, n: Node)
    requires OwnedBelow(st, id.path, b) && OnOwnPath(st, id, b) && id in st && st[id].Leaf?
    ensures OwnedBelow(st[NodeId(id.path, b) := n], id.path, b)
  {
    forall q | id.path < q ensures NodeId(q, b) !in st {
      NothingBelow(st, id, b, q);
    }
  }

  /** Below the path, the split holds only what it made. */
  lemma {:induction false} SplitOwned(st: Store, path: seq<Byte>, b: BlockId, leaf: Node, key: Hash)
    requires Good(st) && leaf.Leaf? && PartWithin(path, leaf.path, key) && 0 < |path| <= PATH_SIZE
    requires LeafOk(NodeId(path, b), leaf)
    requires forall q :: path < q ==> NodeId(q, b) !in st
    ensures OwnedBelow(SplitAt(st, path, b, leaf, key), path, b)
    decreases ACCOUNT_SIZE - |path|
  {
    var nib, old_ := key[|path|], leaf.path[|path|];
    PartDeeper(path, leaf.path, key);
    PrefixStep(path, key);
    PrefixStep(path, leaf.path);
    var self, st' := NodeId(path, b), SplitAt(st, path, b, leaf, key);
    if nib == old_ {
      var p := path + [nib];
      var st1, n := SplitAt(st, p, b, leaf, key), Branch(0, Insert([], nib, b));
      LeafDeeper(path, nib, b, leaf);
      SplitOwned(st, p, b, leaf, key);
      SplitConfined(st, p, b, leaf, key);
      NextInsert([], nib, b, nib);
      forall i | i in st' && i.blk == b && path < i.path ensures OwnedAt(st', i.path, b) {
        assert path + [nib] <= i.path;
        OwnedSameByte(st1, path, nib, b, n, i.path);
      }
    } else {
      var n := Branch(0, Insert(Insert([], nib, b), old_, b));
      InsertSorted([], nib, b);
      NextInsert([], nib, b, nib);
      NextInsert(Insert([], nib, b), old_, b, nib);
      NextInsert(Insert([], nib, b), old_, b, old_);
      forall i | i in st' && i.blk == b && path < i.path ensures OwnedAt(st', i.path, b) {
        assert i.path == path + [nib] || i.path == path + [old_];
        assert i.path[..|path|] == path;
      }
    }
  }

  /** Creating keeps ownership. */
  lemma {:induction false} CreateOwned(st: Store, id: NodeId, key: Hash, b: BlockId)
    requires Good(st) && id in st && id.path <= key && Separate(st, key) && CreateAt(st, id, key, b).0 == Ok
    requires OwnedBelow(st, id.path, b) && OnOwnPath(st, id, b)
    ensures OwnedBelow(CreateAt(st, id, key, b).1, id.path, b)
    decreases ACCOUNT_SIZE - |id.path|
  {
    assert NodeOk(st, id, st[id]);
    if st[id].Leaf? {
      SplitSeparate(st, id, key);
      forall q | id.path < q ensures NodeId(q, b) !in st {
        NothingBelow(st, id, b, q);
      }
      SplitOwned(st, id.path, b, st[id], key);
    } else {
      var cs, nib := st[id].children, key[|id.path|];
      NextOk(st, id, cs, nib);
      PrefixStep(id.path, key);
      var n := Branch(st[id].commit, Insert(cs, nib, b));
      var next := Next(cs, nib);
      if next.Some? {
        var c := Below(id, nib, next.value);
        OwnPathStep(st, id, nib, b);
        OwnedDeeper(st, id.path, c.path, b);
        CreateOwned(st, c, key, b);
        CreateConfined(st, c, key, b);
        OwnedAfterChild(st, CreateAt(st, c, key, b).1, id, nib, b, n);
      } else {
        var child := Below(id, nib, b);
        var st1 := st[child := NewLeaf(key, b)];
        ConfinedSet(st, st, child.path, b, NewLeaf(key, b));
        NothingUnderMissing(st, id, nib, b, NewLeaf(key, b));
        OwnedAfterChild(st, st1, id, nib, b, n);
      }
    }
  }

  lemma NothingUnderMissing(st: Store, id: NodeId, nib: Byte, b: BlockId, n: Node)
    requires id in st && st[id].Branch? && Next(st[id].children, nib).None?
    requires OwnedBelow(st, id.path, b) && OnOwnPath(st, id, b)
    ensures OwnedBelow(st[Below(id, nib, b) := n], id.path + [nib], b)
  {
    var p := id.path + [nib];
    forall q | p < q ensures NodeId(q, b) !in st {
      if NodeId(q, b) in st {
        assert q[|id.path|] == nib;
        OwnedChain(st, id.path, q, b);
      }
    }
  }
}

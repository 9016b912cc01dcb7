/** Pruning a block (branch.cpp:419-453, leaf.cpp:325-354, processing.cpp:128-141). */
module Pruning {
  import opened TrieTypes
  import opened Children
  import opened Trie
  import opened Isolation
  import opened Ownership

  /** Branch::prune and Leaf::prune: the entries of the block are followed, then the node goes. */
  function PruneAt(st: Store, id: NodeId, b: BlockId): (r: Store)
    decreases ACCOUNT_SIZE - |id.path|, 1, 0
  {
    if id !in st || |id.path| >= ACCOUNT_SIZE then st
    else if st[id].Leaf? then st - {id}
    else PruneChildren(st, id, st[id].children, b, 0) - {id}
  }

  /** The loop over the entries, from the i-th on. A child that is not found is skipped. */
  function PruneChildren(st: Store, id: NodeId, cs: seq<Child>, b: BlockId, i: nat): (r: Store)
    requires |id.path| < ACCOUNT_SIZE && i <= |cs|
    decreases ACCOUNT_SIZE - |id.path|, 0, |cs| - i
  {
    if i == |cs| then st
    else if cs[i].blk != b then PruneChildren(st, id, cs, b, i + 1)
    else PruneChildren(PruneAt(st, Below(id, cs[i].anchor, b), b), id, cs, b, i + 1)
  }

  /** st' is st without the nodes of b at and below the path. */
  ghost predicate Pruned(st: Store, st': Store, path: seq<Byte>, b: BlockId) {
    forall i: NodeId ::
      if i.blk == b && path <= i.path then i !in st' else SameAt(st, st', i)
  }

  /** No node of b is left at or below the path. */
  ghost predicate Gone(st: Store, path: seq<Byte>, b: BlockId) {
    forall i: NodeId :: i.blk == b && path <= i.path ==> i !in st
  }

  /** Half-way through the loop: the first i entries of b are done, the others untouched. */
  ghost predicate PrunedBefore(st: Store, st': Store, id: NodeId, cs: seq<Child>, b: BlockId, i: nat)
    requires i <= |cs|
  {
    && (forall j: NodeId :: !(j.blk == b && id.path < j.path) ==> SameAt(st, st', j))
    && (forall n :: 0 <= n < i && cs[n].blk == b ==> Gone(st', id.path + [cs[n].anchor], b))
    && (forall n :: i <= n < |cs| ==> AgreeBelow(st, st', id.path + [cs[n].anchor]))
    && (forall j :: j in st' ==> j in st)
  }

  /** Main result: exactly the nodes of b go. */
  lemma {:induction false} PruneCorrect(st: Store, id: NodeId, b: BlockId)
    requires GoodBelow(st, id.path) && id in st && id.blk == b && OwnedBelow(st, id.path, b)
    ensures Pruned(st, PruneAt(st, id, b), id.path, b)
    decreases ACCOUNT_SIZE - |id.path|, 1, 0
  {
    assert NodeOk(st, id, st[id]);
    if st[id].Leaf? {
      forall q | id.path < q ensures NodeId(q, b) !in st {
        NothingBelow(st, id, b, q);
      }
      PrunedLeaf(st, id, b);
    } else {
      var cs := st[id].children;
      PruneLoop(st, st, id, cs, b, 0);
      PrunedDone(st, PruneChildren(st, id, cs, b, 0), id, b);
    }
  }

  lemma PrunedLeaf(st: Store, id: NodeId, b: BlockId)
    requires id.blk == b && forall q :: id.path < q ==> NodeId(q, b) !in st
    ensures Pruned(st, st - {id}, id.path, b)
  {
    forall i: NodeId | i.blk == b && id.path <= i.path ensures i !in st - {id} {
      assert i == NodeId(i.path, b);
      assert i.path != id.path ==> id.path < i.path;
    }
  }

  /** Every node of b below a branch of b is under one of its entries of b. */
  lemma UnderSomeEntry(st: Store, id: NodeId, b: BlockId, q: seq<Byte>) returns (n: nat)
    requires id in st && id.blk == b && st[id].Branch? && Sorted(st[id].children) && OwnedBelow(st, id.path, b)
    requires id.path < q && NodeId(q, b) in st
    ensures n < |st[id].children| && st[id].children[n].blk == b && id.path + [st[id].children[n].anchor] <= q
  {
    OwnedChain(st, id.path, q, b);
    var cs, x := st[id].children, q[|id.path|];
    EntryIsMember(cs, x);
    n :| 0 <= n < |cs| && cs[n] == Entry(cs, x).value;
  }

  lemma PrunedDone(st: Store, st1: Store, id: NodeId, b: BlockId)
    requires id in st && id.blk == b && st[id].Branch? && Sorted(st[id].children) && OwnedBelow(st, id.path, b)
    requires PrunedBefore(st, st1, id, st[id].children, b, |st[id].children|)
    ensures Pruned(st, st1 - {id}, id.path, b)
  {
    hide Sorted;
    forall i: NodeId | i.blk == b && id.path <= i.path ensures i !in st1 - {id} {
      assert i == NodeId(i.path, b);
      if i.path != id.path && i in st {
        var n := UnderSomeEntry(st, id, b, i.path);
        assert Gone(st1, id.path + [st[id].children[n].anchor], b);
      }
    }
  }

  lemma {:induction false} PruneLoop(st: Store, st1: Store, id: NodeId, cs: seq<Child>, b: BlockId, i: nat)
    requires GoodBelow(st, id.path) && id in st && id.blk == b && st[id].Branch? && cs == st[id].children
    requires OwnedBelow(st, id.path, b) && i <= |cs| && |id.path| < ACCOUNT_SIZE
    requires PrunedBefore(st, st1, id, cs, b, i)
    ensures PrunedBefore(st, PruneChildren(st1, id, cs, b, i), id, cs, b, |cs|)
    decreases ACCOUNT_SIZE - |id.path|, 0, |cs| - i
  {
    hide GoodBelow, OwnedBelow, PrunedBefore, Sorted, Pruned;
    if i < |cs| {
      var child := Below(id, cs[i].anchor, b);
      if cs[i].blk != b {
        PruneSkip(st, st1, id, cs, b, i);
        PruneLoop(st, st1, id, cs, b, i + 1);
      } else {
        PruneChildReady(st, st1, id, b, i);
        PruneCorrect(st1, child, b);
        PruneStep(st, st1, PruneAt(st1, child, b), id, cs, b, i);
        PruneLoop(st, PruneAt(st1, child, b), id, cs, b, i + 1);
      }
    }
  }

  lemma PruneSkip(st: Store, st1: Store, id: NodeId, cs: seq<Child>, b: BlockId, i: nat)
    requires i < |cs| && cs[i].blk != b && PrunedBefore(st, st1, id, cs, b, i)
    ensures PrunedBefore(st, st1, id, cs, b, i + 1)
  {
    hide AgreeBelow, Gone, SameAt;
  }

  /** The next child is untouched so far, so it can be pruned. */
  lemma PruneChildReady(st: Store, st1: Store, id: NodeId, b: BlockId, i: nat)
    requires GoodBelow(st, id.path) && id in st && id.blk == b && st[id].Branch? && OwnedBelow(st, id.path, b)
    requires i < |st[id].children| && st[id].children[i].blk == b
    requires PrunedBefore(st, st1, id, st[id].children, b, i)
    ensures var child := Below(id, st[id].children[i].anchor, b);
            && child in st1 && GoodBelow(st1, child.path) && OwnedBelow(st1, child.path, b)
            && child.path == id.path + [st[id].children[i].anchor] && Sorted(st[id].children)
  {
    assert NodeOk(st, id, st[id]);
    var child := Below(id, st[id].children[i].anchor, b);
    assert AgreeBelow(st, st1, child.path);
    hide Sorted, NodeOk, PrunedBefore;
    assert SameAt(st, st1, child);
    hide AgreeBelow, GoodBelow, OwnedBelow;
    GoodDeeper(st, id.path, child.path);
    GoodAgree(st, st1, child.path);
    OwnedDeeper(st, id.path, child.path, b);
    OwnedAgree(st, st1, child.path, b);
  }

  lemma OwnedAgree(st: Store, st': Store, path: seq<Byte>, b: BlockId)
    requires OwnedBelow(st, path, b) && AgreeBelow(st, st', path)
    ensures OwnedBelow(st', path, b)
  {
    forall id | id in st' && id.blk == b && path < id.path ensures OwnedAt(st', id.path, b) {
      assert SameAt(st, st', id);
      var p := id.path[..|id.path| - 1];
      assert path <= p;
      AgreeDeeper(st, st', path, p);
      OwnedAtAgree(st, st', id.path, b);
    }
  }

  /** One entry of b done. */
  lemma PruneStep(st: Store, st1: Store, st2: Store, id: NodeId, cs: seq<Child>, b: BlockId, i: nat)
    requires i < |cs| && cs[i].blk == b && PrunedBefore(st, st1, id, cs, b, i)
    requires Sorted(cs) && Pruned(st1, st2, id.path + [cs[i].anchor], b)
    ensures PrunedBefore(st, st2, id, cs, b, i + 1)
  {
    var p := id.path + [cs[i].anchor];
    forall j: NodeId | !(j.blk == b && id.path < j.path) ensures SameAt(st, st2, j) {
      assert SameAt(st, st1, j);
      if p <= j.path {
        assert id.path < j.path;
      }
      assert SameAt(st1, st2, j);
    }
    forall n | 0 <= n < i + 1 && cs[n].blk == b ensures Gone(st2, id.path + [cs[n].anchor], b) {
      PruneStepGone(st1, st2, id, cs, b, i, n);
    }
    forall n | i + 1 <= n < |cs| ensures AgreeBelow(st, st2, id.path + [cs[n].anchor]) {
      PruneStepOthers(st, st1, st2, id, cs, b, i, n);
    }
  }

  lemma PruneStepGone(st1: Store, st2: Store, id: NodeId, cs: seq<Child>, b: BlockId, i: nat, n: nat)
    requires n <= i < |cs| && Pruned(st1, st2, id.path + [cs[i].anchor], b)
    requires n < i ==> Gone(st1, id.path + [cs[n].anchor], b)
    ensures Gone(st2, id.path + [cs[n].anchor], b)
  {
    forall j: NodeId | j.blk == b && id.path + [cs[n].anchor] <= j.path ensures j !in st2 {
      if !(id.path + [cs[i].anchor] <= j.path) {
        assert SameAt(st1, st2, j);
      }
    }
  }

  lemma PruneStepOthers(st: Store, st1: Store, st2: Store, id: NodeId, cs: seq<Child>, b: BlockId, i: nat, n: nat)
    requires i < n < |cs| && Sorted(cs) && Pruned(st1, st2, id.path + [cs[i].anchor], b)
    requires AgreeBelow(st, st1, id.path + [cs[n].anchor])
    ensures AgreeBelow(st, st2, id.path + [cs[n].anchor])
  {
    assert cs[i].anchor < cs[n].anchor;
    hide Sorted;
    forall j: NodeId | id.path + [cs[n].anchor] <= j.path ensures SameAt(st, st2, j) {
      PrefixByte(id.path, cs[n].anchor, j.path);
      PrefixByte(id.path, cs[i].anchor, j.path);
      assert SameAt(st, st1, j);
      assert SameAt(st1, st2, j);
    }
  }

  // ---------- what is left ----------

  /** The store without block b is good, provided nothing else pointed into b. */
  lemma PrunedGood(st: Store, st': Store, b: BlockId)
    requires Good(st) && Exclusive(st, b) && Pruned(st, st', [], b)
    ensures Good(st')
  {
    forall id | id in st' ensures NodeOk(st', id, st'[id]) {
      assert [] <= id.path;
      assert SameAt(st, st', id);
      assert NodeOk(st, id, st[id]);
      if st[id].Branch? {
        PrunedBranch(st, st', id, b);
      }
    }
  }

  lemma PrunedBranch(st: Store, st': Store, id: NodeId, b: BlockId)
    requires id in st && st[id].Branch? && BranchOk(st, id, st[id].children) && NoChildOf(st[id], b)
    requires Pruned(st, st', [], b)
    ensures BranchOk(st', id, st[id].children)
  {
    var cs := st[id].children;
    hide Sorted;
    forall i | 0 <= i < |cs| ensures Below(id, cs[i].anchor, cs[i].blk) in st' {
      assert SameAt(st, st', Below(id, cs[i].anchor, cs[i].blk));
    }
  }

  /** Main result for a block: no node of b remains, every other record is as it was, and every
      other block reads the same. */
  lemma PruneBlock(st: Store, b: BlockId)
    requires Good(st) && Owned(st, b) && Exclusive(st, b) && RootId(b) in st
    ensures var st' := PruneAt(st, RootId(b), b);
            && Good(st')
            && (forall id :: id in st' <==> id in st && id.blk != b)
            && (forall id :: id in st' ==> st'[id] == st[id])
            && (forall c, k :: c != b ==> Lookup(st', RootId(c), k) == Lookup(st, RootId(c), k))
  {
    var st' := PruneAt(st, RootId(b), b);
    assert GoodBelow(st, []);
    PruneCorrect(st, RootId(b), b);
    PrunedGood(st, st', b);
    forall id ensures id in st' <==> id in st && id.blk != b {
      assert [] <= id.path;
      assert id.blk != b ==> SameAt(st, st', id);
    }
    forall c, k: Hash | c != b ensures Lookup(st', RootId(c), k) == Lookup(st, RootId(c), k) {
      OthersUndisturbed(st, st', b, RootId(c), k);
    }
  }
}

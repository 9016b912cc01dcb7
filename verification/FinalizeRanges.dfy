/** The recursive pass, its ranges, and any order of them (branch.cpp:354-417, processing.cpp:65-80). */
module FinalizeRanges {
  import opened Scalars
  import opened TrieTypes
  import opened Children
  import opened Trie
  import opened Ownership
  import opened Finalizing

  // ---------- what the code does ----------

  /** Leaf::finalize, and Branch::finalize over all children. */
  function FinalizeAt(k: Crypto, st: Store, id: NodeId, b: BlockId): (r: Store)
    decreases ACCOUNT_SIZE - |id.path|, 1, 0
  {
    if id !in st || |id.path| >= ACCOUNT_SIZE then st
    else
      match st[id]
      case Leaf(_, _, slots, _) => st[id := st[id].(commit := Commit(k, LeafValues(slots)))]
      case Branch(_, cs) =>
        var (st', cs') := FinalizeLoop(k, st, id, cs, b, 0, BRANCH_ORDER, 0);
        st'[id := Branch(Commit(k, BranchValues(cs')), cs')]
  }

  /** The loop over the children: those before `start` are passed over, the first beyond `end` stops
      it. The children vector is changed as it goes. */
  function FinalizeLoop(k: Crypto, st: Store, id: NodeId, cs: seq<Child>, b: BlockId, start: nat, end: nat,
                        i: nat): (r: (Store, seq<Child>))
    requires |id.path| < ACCOUNT_SIZE && i <= |cs|
    decreases ACCOUNT_SIZE - |id.path|, 0, |cs| - i
  {
    if i == |cs| then (st, cs)
    else if cs[i].anchor < start then FinalizeLoop(k, st, id, cs, b, start, end, i + 1)
    else if end < cs[i].end then (st, cs)
    else if cs[i].blk != b || cs[i].sk == 0 then FinalizeLoop(k, st, id, cs, b, start, end, i + 1)
    else
      var child := Below(id, cs[i].anchor, b);
      var st' := FinalizeAt(k, st, child, b);
      if child !in st' then (st', cs)
      else FinalizeLoop(k, st', id, cs[i := cs[i].(sk := k.hash(st'[child].commit))], b, start, end, i + 1)
  }

  /** One batch of finalize_block on a root: its children in a range, no commitment yet. */
  function Batch(k: Crypto, st: Store, id: NodeId, b: BlockId, start: nat, end: nat): (r: Store)
    requires |id.path| < ACCOUNT_SIZE
  {
    if id !in st || st[id].Leaf? then st
    else
      var (st', cs') := FinalizeLoop(k, st, id, st[id].children, b, start, end, 0);
      st'[id := Branch(st[id].commit, cs')]
  }

  // ---------- closed forms ----------

  /** Every node of b at and below the path in its finished form. */
  ghost function FinalStore(k: Crypto, st: Store, path: seq<Byte>, b: BlockId): (r: Store) {
    map i | i in st :: if i.blk == b && path <= i.path then Final(k, st, i, b) else st[i]
  }

  /** i is a node of b below the branch, under one of the bytes. */
  predicate Under(id: NodeId, bytes: set<Byte>, b: BlockId, i: NodeId) {
    i.blk == b && id.path < i.path && i.path[|id.path|] in bytes
  }

  /** The subtrees under the bytes finished, and the branch itself as given. */
  ghost function Ranged(k: Crypto, st: Store, id: NodeId, bytes: set<Byte>, b: BlockId, n: Node): (r: Store) {
    map i | i in st :: if i == id then n else if Under(id, bytes, b, i) then Final(k, st, i, b) else st[i]
  }

  ghost function RangedChildren(k: Crypto, st: Store, id: NodeId, cs: seq<Child>, bytes: set<Byte>,
                                b: BlockId): (r: seq<Child>)
    requires |id.path| < ACCOUNT_SIZE
    ensures |r| == |cs|
  {
    seq(|cs|, n requires 0 <= n < |cs| => if cs[n].anchor in bytes then FinalChild(k, st, id, cs[n], b) else cs[n])
  }

  /** The bytes the loop gets to. */
  ghost function Reached(cs: seq<Child>, start: nat, end: nat, i: nat): (r: set<Byte>)
    requires i <= |cs|
    decreases |cs| - i
  {
    if i == |cs| then {}
    else if cs[i].anchor < start then Reached(cs, start, end, i + 1)
    else if end < cs[i].end then {}
    else {cs[i].anchor} + Reached(cs, start, end, i + 1)
  }

  /** Finished nodes are half-done nodes. */
  lemma FinalIsHalf(k: Crypto, st: Store, id: NodeId, b: BlockId)
    requires id in st && id.blk == b
    ensures Half(k, st, id, Final(k, st, id, b), b)
  {
    if st[id].Branch? && |id.path| < ACCOUNT_SIZE {
      var cs := st[id].children;
      forall i | 0 <= i < |cs| ensures FinalChildren(k, st, id, cs, b)[i] == FinalChild(k, st, id, cs[i], b) {
        FinalChildrenAt(k, st, id, cs, b, i);
      }
    }
  }

  lemma SelfIsHalf(k: Crypto, st: Store, id: NodeId, b: BlockId)
    requires id in st
    ensures Half(k, st, id, st[id], b)
  {
  }

  lemma RangedBetween(k: Crypto, st: Store, id: NodeId, bytes: set<Byte>, b: BlockId, n: Node)
    requires id in st && Half(k, st, id, n, b)
    ensures Between(k, st, Ranged(k, st, id, bytes, b, n), b)
  {
    hide Half, Final;
    var st' := Ranged(k, st, id, bytes, b, n);
    forall i | i in st ensures Half(k, st, i, st'[i], b) {
      SelfIsHalf(k, st, i, b);
      if i.blk == b {
        FinalIsHalf(k, st, i, b);
      }
    }
  }

  lemma RangedHalf(k: Crypto, st: Store, id: NodeId, bytes: set<Byte>, b: BlockId, commit: Scalar)
    requires id in st && id.blk == b && st[id].Branch? && |id.path| < ACCOUNT_SIZE
    ensures Half(k, st, id, Branch(commit, RangedChildren(k, st, id, st[id].children, bytes, b)), b)
  {
  }

  // ---------- the recursive pass ----------

  /** finalize at a node of b gives every node of b below it its finished form. */
  lemma {:induction false} FinalizeClosed(k: Crypto, st: Store, id: NodeId, b: BlockId)
    requires NonzeroHash(k) && GoodBelow(st, id.path) && OwnedBelow(st, id.path, b)
    requires id in st && id.blk == b && |id.path| < ACCOUNT_SIZE
    ensures FinalizeAt(k, st, id, b) == FinalStore(k, st, id.path, b)
    decreases ACCOUNT_SIZE - |id.path|, 1, 0
  {
    assert NodeOk(st, id, st[id]);
    if st[id].Leaf? {
      LeafClosed(k, st, id, b);
    } else {
      var cs := st[id].children;
      NothingRanged(k, st, id, b);
      SelfIsHalf(k, st, id, b);
      LoopClosed(k, st, id, {}, b, st[id], 0, BRANCH_ORDER, 0);
      AllReached(cs, 0);
      var all := Reached(cs, 0, BRANCH_ORDER, 0);
      assert {} + all == all;
      var cs' := RangedChildren(k, st, id, cs, all, b);
      AllChildren(k, st, id, b, all);
      assert FinalizeAt(k, st, id, b) == Ranged(k, st, id, all, b, st[id])[id := Final(k, st, id, b)];
      BranchClosed(k, st, id, b, all);
    }
  }

  lemma LeafClosed(k: Crypto, st: Store, id: NodeId, b: BlockId)
    requires OwnedBelow(st, id.path, b) && id in st && id.blk == b && st[id].Leaf? && |id.path| < ACCOUNT_SIZE
    ensures FinalizeAt(k, st, id, b) == FinalStore(k, st, id.path, b)
  {
    forall i | i in st && i.blk == b && id.path <= i.path ensures i == id {
      assert i == NodeId(i.path, b);
      if id.path < i.path {
        NothingBelow(st, id, b, i.path);
      }
    }
  }

  lemma NothingRanged(k: Crypto, st: Store, id: NodeId, b: BlockId)
    requires id in st && st[id].Branch? && |id.path| < ACCOUNT_SIZE
    ensures Ranged(k, st, id, {}, b, st[id]) == st
    ensures RangedChildren(k, st, id, st[id].children, {}, b) == st[id].children
  {
  }

  lemma {:induction false} AllReached(cs: seq<Child>, i: nat)
    requires i <= |cs|
    ensures forall n :: i <= n < |cs| ==> cs[n].anchor in Reached(cs, 0, BRANCH_ORDER, i)
    decreases |cs| - i
  {
    if i < |cs| {
      AllReached(cs, i + 1);
    }
  }

  lemma AllChildren(k: Crypto, st: Store, id: NodeId, b: BlockId, all: set<Byte>)
    requires id in st && st[id].Branch? && |id.path| < ACCOUNT_SIZE
    requires forall n :: 0 <= n < |st[id].children| ==> st[id].children[n].anchor in all
    ensures RangedChildren(k, st, id, st[id].children, all, b) == FinalChildren(k, st, id, st[id].children, b)
  {
    var cs := st[id].children;
    forall i | 0 <= i < |cs| ensures RangedChildren(k, st, id, cs, all, b)[i] == FinalChildren(k, st, id, cs, b)[i] {
      FinalChildrenAt(k, st, id, cs, b, i);
    }
  }

  /** Every node of b below a good branch of b is under one of its bytes. */
  lemma UnderAnchor(st: Store, id: NodeId, b: BlockId, i: NodeId) returns (n: nat)
    requires id in st && id.blk == b && st[id].Branch? && Sorted(st[id].children) && OwnedBelow(st, id.path, b)
    requires i in st && i.blk == b && id.path < i.path
    ensures n < |st[id].children| && st[id].children[n].anchor == i.path[|id.path|]
  {
    assert i == NodeId(i.path, b);
    OwnedChain(st, id.path, i.path, b);
    n := NextMember(st[id].children, i.path[|id.path|]);
  }

  lemma BranchClosed(k: Crypto, st: Store, id: NodeId, b: BlockId, all: set<Byte>)
    requires id in st && id.blk == b && st[id].Branch? && Sorted(st[id].children) && OwnedBelow(st, id.path, b)
    requires forall n :: 0 <= n < |st[id].children| ==> st[id].children[n].anchor in all
    ensures Ranged(k, st, id, all, b, st[id])[id := Final(k, st, id, b)] == FinalStore(k, st, id.path, b)
  {
    hide Final, Sorted;
    forall i | i in st && i.blk == b && id.path <= i.path && i != id ensures Under(id, all, b, i) {
      assert i == NodeId(i.path, b);
      assert id.path < i.path;
      var n := UnderAnchor(st, id, b, i);
    }
  }

  /** The loop, from any half-done state. */
  lemma {:induction false} LoopClosed(k: Crypto, st: Store, id: NodeId, bytes: set<Byte>, b: BlockId, n: Node,
                                      start: nat, end: nat, i: nat)
    requires NonzeroHash(k) && GoodBelow(st, id.path) && OwnedBelow(st, id.path, b)
    requires id in st && id.blk == b && st[id].Branch? && |id.path| < ACCOUNT_SIZE && i <= |st[id].children|
    requires Half(k, st, id, n, b)
    ensures var cs := st[id].children;
            var more := bytes + Reached(cs, start, end, i);
            FinalizeLoop(k, Ranged(k, st, id, bytes, b, n), id, RangedChildren(k, st, id, cs, bytes, b), b, start, end,
                i)
            == (Ranged(k, st, id, more, b, n), RangedChildren(k, st, id, cs, more, b))
    decreases ACCOUNT_SIZE - |id.path|, 0, |st[id].children| - i
  {
    var cs := st[id].children;
    var cur, now := RangedChildren(k, st, id, cs, bytes, b), Ranged(k, st, id, bytes, b, n);
    if i == |cs| {
      assert bytes + {} == bytes;
    } else {
      FinalChildShape(k, st, id, cs[i], b);
      assert cur[i].anchor == cs[i].anchor && cur[i].end == cs[i].end && cur[i].blk == cs[i].blk &&
             (cur[i].sk == 0 <==> cs[i].sk == 0);
      if cs[i].anchor < start {
        LoopClosed(k, st, id, bytes, b, n, start, end, i + 1);
      } else if end < cs[i].end {
        assert bytes + {} == bytes;
      } else {
        var more := bytes + {cs[i].anchor};
        assert more + Reached(cs, start, end, i + 1) == bytes + Reached(cs, start, end, i);
        LoopClosed(k, st, id, more, b, n, start, end, i + 1);
        if cs[i].blk != b || cs[i].sk == 0 {
          SkipByte(k, st, id, bytes, b, n, i);
        } else {
          LoopStep(k, st, id, bytes, b, n, i);
        }
      }
    }
  }

  /** An entry of another block has nothing of b under it. */
  lemma SkipByte(k: Crypto, st: Store, id: NodeId, bytes: set<Byte>, b: BlockId, n: Node, i: nat)
    requires GoodBelow(st, id.path) && OwnedBelow(st, id.path, b)
    requires id in st && id.blk == b && st[id].Branch? && |id.path| < ACCOUNT_SIZE && i < |st[id].children|
    requires st[id].children[i].blk != b || st[id].children[i].sk == 0
    ensures var cs := st[id].children;
            var more := bytes + {cs[i].anchor};
            && Ranged(k, st, id, more, b, n) == Ranged(k, st, id, bytes, b, n)
            && RangedChildren(k, st, id, cs, more, b) == RangedChildren(k, st, id, cs, bytes, b)
  {
    assert NodeOk(st, id, st[id]);
    var cs := st[id].children;
    var x := cs[i].anchor;
    var more := bytes + {x};
    hide Final;
    forall j | j in st ensures Under(id, more, b, j) <==> Under(id, bytes, b, j) {
      if j.blk == b && id.path < j.path && j.path[|id.path|] == x {
        assert j == NodeId(j.path, b);
        OwnedChain(st, id.path, j.path, b);
        MemberIsEntry(cs, i);
      }
    }
    forall m | 0 <= m < |cs|
      ensures RangedChildren(k, st, id, cs, more, b)[m] == RangedChildren(k, st, id, cs, bytes, b)[m]
    {
      if cs[m].anchor == x {
        assert m == i;
      }
    }
  }

  /** An entry of b: its subtree is finished, and its scalar is the hash of the finished child. */
  lemma {:induction false} LoopStep(k: Crypto, st: Store, id: NodeId, bytes: set<Byte>, b: BlockId, n: Node, i: nat)
    requires NonzeroHash(k) && GoodBelow(st, id.path) && OwnedBelow(st, id.path, b)
    requires id in st && id.blk == b && st[id].Branch? && |id.path| < ACCOUNT_SIZE && i < |st[id].children|
    requires st[id].children[i].blk == b && st[id].children[i].sk != 0 && Half(k, st, id, n, b)
    ensures var cs := st[id].children;
            var child, more := Below(id, cs[i].anchor, b), bytes + {cs[i].anchor};
            var cur := RangedChildren(k, st, id, cs, bytes, b);
            var st' := FinalizeAt(k, Ranged(k, st, id, bytes, b, n), child, b);
            && st' == Ranged(k, st, id, more, b, n)
            && child in st'
            && cur[i := cur[i].(sk := k.hash(st'[child].commit))] == RangedChildren(k, st, id, cs, more, b)
    decreases ACCOUNT_SIZE - |id.path|, 0, 0
  {
    assert NodeOk(st, id, st[id]);
    var cs := st[id].children;
    var child := Below(id, cs[i].anchor, b);
    var now := Ranged(k, st, id, bytes, b, n);
    RangedBetween(k, st, id, bytes, b, n);
    assert child in now;
    hide Half;
    GoodDeeper(st, id.path, child.path);
    GoodBetween(k, st, now, b, child.path);
    OwnedDeeper(st, id.path, child.path, b);
    OwnedBetween(k, st, now, b, child.path, b);
    FinalizeClosed(k, now, child, b);
    FinishedUnder(k, st, id, bytes, b, n, cs[i].anchor);
    ChildFinished(k, st, id, bytes, b, i);
  }

  lemma FinishedUnder(k: Crypto, st: Store, id: NodeId, bytes: set<Byte>, b: BlockId, n: Node, x: Byte)
    requires NonzeroHash(k) && id in st && id.blk == b && Between(k, st, Ranged(k, st, id, bytes, b, n), b)
    ensures FinalStore(k, Ranged(k, st, id, bytes, b, n), id.path + [x], b) == Ranged(k, st, id, bytes + {x}, b, n)
  {
    var now, more := Ranged(k, st, id, bytes, b, n), bytes + {x};
    hide Final;
    forall i | i in st ensures FinalStore(k, now, id.path + [x], b)[i] == Ranged(k, st, id, more, b, n)[i] {
      PrefixByte(id.path, x, i.path);
      if i.blk == b && id.path + [x] <= i.path {
        FinalBetween(k, st, now, i, b);
        assert Under(id, more, b, i);
      } else if Under(id, {x}, b, i) {
        ByteBelow(id.path, x, i.path);
      }
    }
  }

  lemma ByteBelow(p: seq<Byte>, x: Byte, q: seq<Byte>)
    requires p < q && q[|p|] == x
    ensures p + [x] <= q
  {
  }

  lemma ChildFinished(k: Crypto, st: Store, id: NodeId, bytes: set<Byte>, b: BlockId, i: nat)
    requires id in st && id.blk == b && st[id].Branch? && Sorted(st[id].children) && |id.path| < ACCOUNT_SIZE &&
             i < |st[id].children|
    requires st[id].children[i].blk == b && st[id].children[i].sk != 0 && Below(id, st[id].children[i].anchor, b) in st
    ensures var cs := st[id].children;
            var child, more := Below(id, cs[i].anchor, b), bytes + {cs[i].anchor};
            var cur := RangedChildren(k, st, id, cs, bytes, b);
            cur[i := cur[i].(sk := k.hash(Final(k, st, child, b).commit))] == RangedChildren(k, st, id, cs, more, b)
  {
    var cs := st[id].children;
    var child, more := Below(id, cs[i].anchor, b), bytes + {cs[i].anchor};
    var cur := RangedChildren(k, st, id, cs, bytes, b);
    hide Final;
    forall m | 0 <= m < |cs| && m != i ensures cur[m] == RangedChildren(k, st, id, cs, more, b)[m] {
      assert cs[m].anchor != cs[i].anchor;
    }
  }
}

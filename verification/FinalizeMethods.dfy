/** finalize as it runs, over the allocator (branch.cpp:354-417, branch.h:111-121, leaf.h:71-80,
    processing.cpp:31-103). */
module FinalizeMethods {
  import opened Scalars
  import opened TrieTypes
  import opened Children
  import opened Trie
  import opened Ownership
  import opened Kzg
  import opened Finalizing
  import opened FinalizeRanges
  import opened FinalizeBlock
  import opened Allocator
  import opened Lru
  import opened TrieMethods
  import opened BlockMethods
  import opened ExistenceProofs

  // ---------- commitments ----------

  /** The loop of Branch::derive_commitment. */
  method BranchPoly(cs: seq<Child>) returns (poly: seq<Scalar>)
    requires Sorted(cs)
    ensures poly == BranchValues(cs)
  {
    poly := seq(BRANCH_ORDER, i => 0);
    for j := 0 to |cs|
      invariant |poly| == BRANCH_ORDER
      invariant forall i :: 0 <= i < j ==> poly[cs[i].anchor] == cs[i].sk
      invariant forall x: Byte :: (forall i :: 0 <= i < j ==> cs[i].anchor != x) ==> poly[x] == 0
    {
      poly := poly[cs[j].anchor := cs[j].sk];
    }
    forall x: Byte
      ensures poly[x] == ScalarAt(cs, x)
    {
      EntryIsMember(cs, x);
      if Entry(cs, x).Some? {
        var i :| 0 <= i < |cs| && cs[i] == Entry(cs, x).value;
        assert poly[cs[i].anchor] == cs[i].sk;
      }
    }
  }

  /** The loop of Leaf::derive_commitment; a zero hash is a zero value. */
  method LeafPoly(slots: seq<Hash>) returns (poly: seq<Scalar>)
    requires |slots| == LEAF_ORDER
    ensures poly == LeafValues(slots)
  {
    ZeroScalar();
    poly := seq(BRANCH_ORDER, i => 0);
    for j := 0 to LEAF_ORDER
      invariant |poly| == BRANCH_ORDER
      invariant forall i :: 0 <= i < BRANCH_ORDER ==> poly[i] == if i < j then ToScalar(slots[i]) else 0
    {
      hide ToScalar;
      if slots[j] != ZERO_HASH {
        poly := poly[j := ToScalar(slots[j])];
      }
    }
  }

  lemma ZeroScalar()
    ensures ToScalar(ZERO_HASH) == 0
  {
    ZeroValue(ZERO_HASH);
    ModSmall(P, 0);
  }

  lemma {:induction false} ZeroValue(h: seq<Byte>)
    requires forall i :: 0 <= i < |h| ==> h[i] == 0
    ensures LittleEndian(h) == 0
  {
    if h != [] {
      ZeroValue(h[1..]);
    }
  }

  method CommitTo(values: seq<Scalar>, k: Settings, ghost c: Crypto) returns (r: Scalar)
    requires ValidSettings(k, 8, c.w, c.v, c.s) && |values| == BRANCH_ORDER
    ensures r == Commit(c, values)
  {
    hide ValidSettings, Commitment;
    ExpEight();
    r := CommitValues(values, k, 8, c.w, c.v, c.s);
  }

  // ---------- the recursive pass ----------

  /** The same entries, all with a scalar. */
  ghost predicate SameEntries(cs: seq<Child>, cs': seq<Child>)
  {
    && |cs'| == |cs|
    && forall i :: 0 <= i < |cs| ==>
         cs'[i].anchor == cs[i].anchor && cs'[i].end == cs[i].end && cs'[i].blk == cs[i].blk && cs'[i].sk != 0
  }

  lemma ShapeStart(st: Store, id: NodeId)
    requires Good(st) && id in st && st[id].Branch?
    ensures |id.path| < PATH_SIZE && BranchOk(st, id, st[id].children) && SameEntries(st[id].children, st[id].children)
  {
    assert NodeOk(st, id, st[id]);
  }

  /** A branch with new scalars is as good as before. */
  lemma ShapeGood(st0: Store, st: Store, id: NodeId, cs: seq<Child>, cs': seq<Child>, commit: Scalar)
    requires BranchOk(st0, id, cs) && SameEntries(cs, cs') && Good(st) && st.Keys == st0.Keys
    ensures Sorted(cs') && Good(st[id := Branch(commit, cs')])
  {
    var st', n := st[id := Branch(commit, cs')], Branch(commit, cs');
    assert Sorted(cs');
    forall i | 0 <= i < |cs'|
      ensures cs'[i].sk != 0 && Below(id, cs'[i].anchor, cs'[i].blk) in st'
    {
      assert Below(id, cs[i].anchor, cs[i].blk) in st0.Keys;
    }
    assert NodeOk(st', id, n);
    hide NodeOk, Good, Sorted, SameEntries, BranchOk;
    GoodSet(st, st, id, n);
  }

  lemma ShapeSorted(st: Store, id: NodeId, cs: seq<Child>, cs': seq<Child>)
    requires BranchOk(st, id, cs) && SameEntries(cs, cs')
    ensures Sorted(cs')
  {
  }

  lemma LeafGood(st: Store, id: NodeId, commit: Scalar)
    requires Good(st) && id in st && st[id].Leaf?
    ensures |id.path| <= PATH_SIZE && |st[id].slots| == LEAF_ORDER
    ensures Good(st[id := Leaf(commit, st[id].path, st[id].slots, st[id].slotBlks)])
  {
    assert NodeOk(st, id, st[id]);
    GoodSet(st, st, id, Leaf(commit, st[id].path, st[id].slots, st[id].slotBlks));
  }

  /** What is left to load. */
  ghost predicate Enough(st: Store, b: BlockId, hot: set<NodeId>, room: nat)
  {
    |NodesOf(st, b) - hot| <= room
  }

  lemma EnoughLess(st: Store, b: BlockId, hot: set<NodeId>, room: nat, id: NodeId)
    requires Enough(st, b, hot, room) && id in st && id.blk == b && id !in hot
    ensures room > 0 && Enough(st, b, hot + {id}, room - 1)
  {
    var before := NodesOf(st, b) - hot;
    assert id in before;
    assert NodesOf(st, b) - (hot + {id}) == before - {id};
  }

  /** The room after a node of the block was loaded: it costs some only the first time. */
  ghost function RoomAfter(hot: set<NodeId>, room: nat, id: NodeId): (left: nat)
    requires id in hot || room > 0
  {
    if id in hot then room else room - 1
  }

  lemma EnoughLoaded(st: Store, b: BlockId, hot: set<NodeId>, room: nat, id: NodeId)
    requires Enough(st, b, hot, room) && id in st && id.blk == b
    ensures (id in hot || room > 0) && Enough(st, b, hot + {id}, RoomAfter(hot, room, id))
  {
    if id in hot {
      assert hot + {id} == hot;
    } else {
      EnoughLess(st, b, hot, room, id);
    }
  }

  method LoadOnce(a: NodeAllocator, id: NodeId, b: BlockId, ghost hot: set<NodeId>, ghost room: nat)
    requires a.Calm(hot, room) && id in a.Flat() && (id in hot || room > 0) && id.blk != CANONICAL
    modifies a, a.cache
    ensures a.Flat() == old(a.Flat()) && a.Calm(hot + {id}, RoomAfter(hot, room, id))
  {
    assert id in hot ==> hot + {id} == hot;
    hide CalmAt, Contents, KeysOf, Linked, Leaves;
    var _, _ := a.LoadNode(id, hot, room);
  }

  /** Leaf::finalize, and Branch::finalize over all children. */
  method Finalize(a: NodeAllocator, id: NodeId, b: BlockId, k: Settings, c: Crypto, ghost hot: set<NodeId>,
                  ghost room: nat)
    returns (rc: Code, out: Scalar, ghost hot': set<NodeId>, ghost left: nat)
    requires ValidSettings(k, 8, c.w, c.v, c.s) && NonzeroHash(c)
    requires a.Calm(hot, room) && id in hot && id.blk == b && Good(a.Flat()) && Enough(a.Flat(), b, hot, room) &&
             b != CANONICAL
    modifies a, a.cache
    ensures rc == Ok && a.Flat() == FinalizeAt(c, old(a.Flat()), id, b)
    ensures Good(a.Flat()) && a.Flat().Keys == old(a.Flat()).Keys && id in a.Flat() && out == a.Flat()[id].commit
    ensures hot <= hot' && a.Calm(hot', left) && Enough(a.Flat(), b, hot', left)
    decreases PATH_SIZE - |id.path|, 2
  {
    var n := Held(a, id, hot, room);
    if n.Leaf? {
      hide *;
      rc, out := FinalizeLeaf(a, id, n, b, k, c, hot, room);
      return rc, out, hot, room;
    }
    ghost var st := a.Flat();
    ShapeStart(st, id);
    BranchUnfold(c, st, id, b);
    var cs;
    hide *;
    rc, cs, hot', left := FinalizeChildren(a, id, n.children, b, 0, BRANCH_ORDER, k, c, hot, room);
    out := CommitBranch(a, id, n.children, cs, b, k, c, st, hot', left);
  }

  /** The end of finalize: the commitment is derived from the new scalars. */
  method CommitBranch(a: NodeAllocator, id: NodeId, ghost cs0: seq<Child>, cs: seq<Child>, b: BlockId, k: Settings,
                      c: Crypto,
                      ghost st: Store, ghost hot: set<NodeId>, ghost room: nat)
    returns (out: Scalar)
    requires ValidSettings(k, 8, c.w, c.v, c.s)
    requires a.Calm(hot, room) && id in hot && id in a.Flat() && Good(a.Flat()) && Enough(a.Flat(), b, hot, room)
    requires BranchOk(st, id, cs0) && SameEntries(cs0, cs) && a.Flat().Keys == st.Keys && id.blk != CANONICAL
    modifies a, a.cache
    ensures out == Commit(c, BranchValues(cs)) && a.Flat() == old(a.Flat())[id := Branch(out, cs)]
    ensures Good(a.Flat()) && a.Flat().Keys == st.Keys
    ensures a.Calm(hot, room) && Enough(a.Flat(), b, hot, room)
  {
    ShapeSorted(st, id, cs0, cs);
    hide *;
    var poly := BranchPoly(cs);
    out := CommitTo(poly, k, c);
    ShapeGood(st, a.Flat(), id, cs0, cs, out);
    EnoughSet(a.Flat(), id, Branch(out, cs), b, hot, room);
    a.SetNode(id, Branch(out, cs), hot, room);
  }

  lemma BranchUnfold(c: Crypto, st: Store, id: NodeId, b: BlockId)
    requires id in st && st[id].Branch? && |id.path| < PATH_SIZE
    ensures var r := FinalizeLoop(c, st, id, st[id].children, b, 0, BRANCH_ORDER, 0);
            FinalizeAt(c, st, id, b) == r.0[id := Branch(Commit(c, BranchValues(r.1)), r.1)]
  {
    hide Commit, BranchValues;
  }

  lemma EnoughSet(st: Store, id: NodeId, n: Node, b: BlockId, hot: set<NodeId>, room: nat)
    requires Enough(st, b, hot, room) && id in st
    ensures Enough(st[id := n], b, hot, room) && st[id := n].Keys == st.Keys
  {
    assert NodesOf(st, b) == NodesOf(st[id := n], b);
  }

  method FinalizeLeaf(a: NodeAllocator, id: NodeId, n: Node, b: BlockId, k: Settings, c: Crypto,
                      ghost hot: set<NodeId>, ghost room: nat)
    returns (rc: Code, out: Scalar)
    requires ValidSettings(k, 8, c.w, c.v, c.s)
    requires a.Calm(hot, room) && id in hot && Good(a.Flat()) && Enough(a.Flat(), b, hot, room)
    requires id in a.Flat() && a.Flat()[id] == n && n.Leaf? && id.blk != CANONICAL
    modifies a, a.cache
    ensures rc == Ok && a.Flat() == FinalizeAt(c, old(a.Flat()), id, b)
    ensures Good(a.Flat()) && a.Flat().Keys == old(a.Flat()).Keys && id in a.Flat() && out == a.Flat()[id].commit
    ensures a.Calm(hot, room) && Enough(a.Flat(), b, hot, room)
  {
    LeafGood(a.Flat(), id, 0);
    var poly := LeafPoly(n.slots);
    out := CommitTo(poly, k, c);
    LeafGood(a.Flat(), id, out);
    LeafUnfold(c, a.Flat(), id, b);
    hide *;
    var n' := Leaf(out, n.path, n.slots, n.slotBlks);
    EnoughSet(a.Flat(), id, n', b, hot, room);
    a.SetNode(id, n', hot, room);
    rc := Ok;
  }

  lemma LeafUnfold(c: Crypto, st: Store, id: NodeId, b: BlockId)
    requires id in st && st[id].Leaf? && |id.path| <= PATH_SIZE
    ensures FinalizeAt(c, st, id, b) ==
            st[id := Leaf(Commit(c, LeafValues(st[id].slots)), st[id].path, st[id].slots, st[id].slotBlks)]
  {
    hide Commit, LeafValues;
  }

  /** The loop of Branch::finalize over a range of bytes. */
  method FinalizeChildren(a: NodeAllocator, id: NodeId, cs0: seq<Child>, b: BlockId, start: nat, end: nat,
                          k: Settings, c: Crypto,
                          ghost hot: set<NodeId>, ghost room: nat)
    returns (rc: Code, cs: seq<Child>, ghost hot': set<NodeId>, ghost left: nat)
    requires ValidSettings(k, 8, c.w, c.v, c.s) && NonzeroHash(c)
    requires a.Calm(hot, room) && id in hot && Good(a.Flat()) && Enough(a.Flat(), b, hot, room)
    requires BranchOk(a.Flat(), id, cs0) && SameEntries(cs0, cs0) && b != CANONICAL
    modifies a, a.cache
    ensures rc == Ok && (a.Flat(), cs) == FinalizeLoop(c, old(a.Flat()), id, cs0, b, start, end, 0)
    ensures Good(a.Flat()) && a.Flat().Keys == old(a.Flat()).Keys && id in a.Flat() && SameEntries(cs0, cs)
    ensures hot <= hot' && a.Calm(hot', left) && Enough(a.Flat(), b, hot', left) && id in hot'
    decreases PATH_SIZE - |id.path|, 1
  {
    ghost var st := a.Flat();
    assert id in st by { HotResident(a.cache, hot, id); }
    assert |id.path| < PATH_SIZE < ACCOUNT_SIZE;
    hide CalmAt, Contents, KeysOf, Linked, Enough, Good, ValidSettings, NonzeroHash, BranchOk, FinalizeAt,
        FinalizeLoop, SameEntries;
    cs, hot', left := cs0, hot, room;
    var i := 0;
    while i < |cs|
      invariant i <= |cs| && SameEntries(cs0, cs)
      invariant Good(a.Flat()) && a.Flat().Keys == st.Keys
      invariant hot <= hot' && a.Calm(hot', left) && Enough(a.Flat(), b, hot', left)
      invariant FinalizeLoop(c, a.Flat(), id, cs, b, start, end, i) == FinalizeLoop(c, st, id, cs0, b, start, end, 0)
      decreases |cs| - i
    {
      LoopUnfold(c, a.Flat(), id, cs, b, start, end, i);
      EntryThere(st, id, cs0, cs, i);
      if cs[i].anchor < start {
      } else if end < cs[i].end {
        break;
      } else if cs[i].blk == b && cs[i].sk != 0 {
        var out;
        out, hot', left := FinalizeChild(a, id, cs[i], b, k, c, hot', left);
        ShapeStep(cs0, cs, i, c, out);
        cs := cs[i := cs[i].(sk := c.hash(out))];
      }
      i := i + 1;
    }
    if i == |cs| {
      LoopEnd(c, a.Flat(), id, cs, b, start, end);
    }
    rc := Ok;
  }

  lemma LoopUnfold(c: Crypto, st: Store, id: NodeId, cs: seq<Child>, b: BlockId, start: nat, end: nat, i: nat)
    requires |id.path| < ACCOUNT_SIZE && i < |cs|
    ensures var child := Below(id, cs[i].anchor, b);
            var st' := FinalizeAt(c, st, child, b);
            FinalizeLoop(c, st, id, cs, b, start, end, i)
            == if cs[i].anchor < start then FinalizeLoop(c, st, id, cs, b, start, end, i + 1)
               else if end < cs[i].end then (st, cs)
               else if cs[i].blk != b || cs[i].sk == 0 then FinalizeLoop(c, st, id, cs, b, start, end, i + 1)
               else if child !in st' then (st', cs)
               else FinalizeLoop(c, st', id, cs[i := cs[i].(sk := c.hash(st'[child].commit))], b, start, end, i + 1)
  {
    hide Commit, BranchValues, LeafValues;
  }

  lemma LoopEnd(c: Crypto, st: Store, id: NodeId, cs: seq<Child>, b: BlockId, start: nat, end: nat)
    requires |id.path| < ACCOUNT_SIZE
    ensures FinalizeLoop(c, st, id, cs, b, start, end, |cs|) == (st, cs)
  {
  }

  lemma EntryThere(st: Store, id: NodeId, cs: seq<Child>, cs': seq<Child>, i: nat)
    requires BranchOk(st, id, cs) && SameEntries(cs, cs') && i < |cs'|
    ensures |cs| == |cs'| && Below(id, cs'[i].anchor, cs'[i].blk) in st
  {
  }

  lemma ShapeStep(cs: seq<Child>, cs': seq<Child>, i: nat, c: Crypto, x: Scalar)
    requires SameEntries(cs, cs') && i < |cs'| && NonzeroHash(c)
    ensures SameEntries(cs, cs'[i := cs'[i].(sk := c.hash(x))])
  {
  }

  /** One entry: its node is loaded and finalized. */
  method FinalizeChild(a: NodeAllocator, id: NodeId, entry: Child, b: BlockId, k: Settings, c: Crypto,
                       ghost hot: set<NodeId>, ghost room: nat)
    returns (out: Scalar, ghost hot': set<NodeId>, ghost left: nat)
    requires ValidSettings(k, 8, c.w, c.v, c.s) && NonzeroHash(c) && |id.path| < PATH_SIZE
    requires a.Calm(hot, room) && Good(a.Flat()) && Enough(a.Flat(), b, hot, room)
    requires Below(id, entry.anchor, b) in a.Flat() && b != CANONICAL
    modifies a, a.cache
    ensures a.Flat() == FinalizeAt(c, old(a.Flat()), Below(id, entry.anchor, b), b)
    ensures Good(a.Flat()) && a.Flat().Keys == old(a.Flat()).Keys
    ensures Below(id, entry.anchor, b) in a.Flat() && out == a.Flat()[Below(id, entry.anchor, b)].commit
    ensures hot <= hot' && a.Calm(hot', left) && Enough(a.Flat(), b, hot', left)
    decreases PATH_SIZE - |id.path| - 1, 3
  {
    hide CalmAt, Contents, KeysOf, Linked, Enough, Good, ValidSettings, NonzeroHash, FinalizeAt, RoomAfter;
    var child := Below(id, entry.anchor, b);
    EnoughLoaded(a.Flat(), b, hot, room, child);
    LoadOnce(a, child, b, hot, room);
    var rc;
    rc, out, hot', left := Finalize(a, child, b, k, c, hot + {child}, RoomAfter(hot, room, child));
  }

  // ---------- a block ----------

  /** One task of finalize_block: the root's children in a range. */
  method FinalizeBatch(a: NodeAllocator, b: BlockId, range: Range, k: Settings, c: Crypto, ghost hot: set<NodeId>,
                       ghost room: nat)
    returns (rc: Code, ghost hot': set<NodeId>, ghost left: nat)
    requires ValidSettings(k, 8, c.w, c.v, c.s) && NonzeroHash(c)
    requires a.Calm(hot, room) && RootId(b) in hot && Good(a.Flat()) && Enough(a.Flat(), b, hot, room) && b != CANONICAL
    modifies a, a.cache
    ensures rc == Ok && a.Flat() == Batch(c, old(a.Flat()), RootId(b), b, range.start, range.end)
    ensures Good(a.Flat()) && a.Flat().Keys == old(a.Flat()).Keys && RootId(b) in a.Flat()
    ensures hot <= hot' && a.Calm(hot', left) && Enough(a.Flat(), b, hot', left)
  {
    var id := RootId(b);
    var n := Held(a, id, hot, room);
    ghost var st := a.Flat();
    assert NodeOk(st, id, n) && n.Branch?;
    ShapeStart(st, id);
    BatchUnfold(c, st, id, b, range);
    assert id.blk == b;
    hide *;
    var cs;
    rc, cs, hot', left := FinalizeChildren(a, id, n.children, b, range.start, range.end, k, c, hot, room);
    ShapeGood(st, a.Flat(), id, n.children, cs, n.commit);
    EnoughSet(a.Flat(), id, Branch(n.commit, cs), b, hot', left);
    a.SetNode(id, Branch(n.commit, cs), hot', left);
  }

  lemma BatchUnfold(c: Crypto, st: Store, id: NodeId, b: BlockId, range: Range)
    requires id in st && st[id].Branch? && |id.path| < PATH_SIZE
    ensures var r := FinalizeLoop(c, st, id, st[id].children, b, range.start, range.end, 0);
            Batch(c, st, id, b, range.start, range.end) == r.0[id := Branch(st[id].commit, r.1)]
  {
    hide FinalizeLoop;
  }

  /** finalize_block with its four tasks in any order: every node of the block in its finished form, and
      the hash of the root's commitment. */
  method FinalizeRoot(a: NodeAllocator, b: BlockId, order: seq<Range>, k: Settings, c: Crypto, ghost hot: set<NodeId>,
                      ghost room: nat)
    returns (rc: Code, out: Scalar)
    requires ValidSettings(k, 8, c.w, c.v, c.s) && NonzeroHash(c) && multiset(order) == multiset(BATCHES)
    requires a.Calm(hot, room) && RootId(b) in hot && Good(a.Flat()) && Owned(a.Flat(), b) &&
             Enough(a.Flat(), b, hot, room) && b != CANONICAL
    modifies a, a.cache
    ensures a.Stable() && rc == Ok && a.Flat() == FinalStore(c, old(a.Flat()), [], b)
    ensures RootId(b) in a.Flat() && out == c.hash(a.Flat()[RootId(b)].commit)
  {
    hide *;
    var root := Held(a, RootId(b), hot, room);
    FourBatches(c, a.Flat(), b, order);
    ghost var hot', left;
    rc, hot', left := FinalizeBatches(a, b, order, k, c, hot, room);
    out := CommitRootNow(a, b, k, c, hot', left);
    CalmStable(a, hot', left);
    return Ok, c.hash(out);
  }

  method FinalizeBatches(a: NodeAllocator, b: BlockId, order: seq<Range>, k: Settings, c: Crypto,
                         ghost hot: set<NodeId>, ghost room: nat)
    returns (rc: Code, ghost hot': set<NodeId>, ghost left: nat)
    requires ValidSettings(k, 8, c.w, c.v, c.s) && NonzeroHash(c)
    requires a.Calm(hot, room) && RootId(b) in hot && Good(a.Flat()) && Enough(a.Flat(), b, hot, room) && b != CANONICAL
    modifies a, a.cache
    ensures rc == Ok && |RootId(b).path| < ACCOUNT_SIZE && a.Flat() == RunBatches(c, old(a.Flat()), RootId(b), b, order)
    ensures Good(a.Flat()) && RootId(b) in hot' && a.Calm(hot', left) && Enough(a.Flat(), b, hot', left)
  {
    ghost var st := a.Flat();
    assert order[0..] == order;
    hide CalmAt, Contents, KeysOf, Linked, Enough, Good, ValidSettings, NonzeroHash, Batch, RunBatches;
    hot', left, rc := hot, room, Ok;
    for i := 0 to |order|
      invariant rc == Ok && a.Calm(hot', left) && RootId(b) in hot' && Good(a.Flat()) && Enough(a.Flat(), b, hot', left)
      invariant RunBatches(c, a.Flat(), RootId(b), b, order[i..]) == RunBatches(c, st, RootId(b), b, order)
    {
      BatchesUnfold(c, a.Flat(), b, order, i);
      rc, hot', left := FinalizeBatch(a, b, order[i], k, c, hot', left);
    }
    BatchesEnd(c, a.Flat(), b, order);
  }

  method CommitRootNow(a: NodeAllocator, b: BlockId, k: Settings, c: Crypto, ghost hot: set<NodeId>, ghost room: nat)
    returns (out: Scalar)
    requires ValidSettings(k, 8, c.w, c.v, c.s)
    requires a.Calm(hot, room) && RootId(b) in hot && Good(a.Flat()) && Enough(a.Flat(), b, hot, room) && b != CANONICAL
    modifies a, a.cache
    ensures a.Calm(hot, room) && a.Flat() == CommitRoot(c, old(a.Flat()), RootId(b))
    ensures RootId(b) in a.Flat() && out == a.Flat()[RootId(b)].commit
  {
    var n := Held(a, RootId(b), hot, room);
    assert NodeOk(a.Flat(), RootId(b), n) && n.Branch?;
    ShapeStart(a.Flat(), RootId(b));
    RootUnfold(c, a.Flat(), RootId(b));
    assert RootId(b).blk == b;
    hide *;
    out := CommitBranch(a, RootId(b), n.children, n.children, b, k, c, a.Flat(), hot, room);
  }

  lemma RootUnfold(c: Crypto, st: Store, id: NodeId)
    requires id in st && st[id].Branch?
    ensures CommitRoot(c, st, id) == st[id := Branch(Commit(c, BranchValues(st[id].children)), st[id].children)]
  {
    hide Commit, BranchValues;
  }

  lemma BatchesUnfold(c: Crypto, st: Store, b: BlockId, order: seq<Range>, i: nat)
    requires i < |order|
    ensures RunBatches(c, st, RootId(b), b, order[i..])
         == RunBatches(c, Batch(c, st, RootId(b), b, order[i].start, order[i].end), RootId(b), b, order[i + 1..])
  {
    hide Batch;
    assert order[i..][1..] == order[i + 1..];
  }

  lemma BatchesEnd(c: Crypto, st: Store, b: BlockId, order: seq<Range>)
    ensures RunBatches(c, st, RootId(b), b, order[|order|..]) == st
  {
  }
}

/** finalize_block: batches over the root's children in any order, then the root commitment
    (processing.cpp:31-103).
 */
module FinalizeBlock {
  import opened TrieTypes
  import opened Children
  import opened Trie
  import opened Ownership
  import opened Finalizing
  import opened FinalizeRanges

  /** The store after some bytes of the root are done. */
  ghost function Staged(k: Crypto, st: Store, id: NodeId, bytes: set<Byte>, b: BlockId): (r: Store)
    requires id in st && st[id].Branch? && |id.path| < ACCOUNT_SIZE
  {
    Ranged(k, st, id, bytes, b, Branch(st[id].commit, RangedChildren(k, st, id, st[id].children, bytes, b)))
  }

  datatype Range = Range(start: nat, end: nat)

  function RunBatches(k: Crypto, st: Store, id: NodeId, b: BlockId, ranges: seq<Range>): (r: Store)
    requires |id.path| < ACCOUNT_SIZE
    decreases |ranges|
  {
    if ranges == [] then st else RunBatches(k, Batch(k, st, id, b, ranges[0].start, ranges[0].end), id, b, ranges[1..])
  }

  /** root->derive_commitment() */
  function CommitRoot(k: Crypto, st: Store, id: NodeId): (r: Store) {
    if id in st && st[id].Branch? then st[id := Branch(Commit(k, BranchValues(st[id].children)), st[id].children)]
        else st
  }

  /** The four batches: both ends are included, so 64, 128 and 192 are in two of them. */
  const BATCHES: seq<Range> := [Range(0, 64), Range(64, 128), Range(128, 192), Range(192, 256)]

  ghost predicate Covers(ranges: seq<Range>, x: Byte) {
    exists r :: r in ranges && r.start <= x <= r.end
  }

  // ---------- one batch ----------

  /** The early stop loses nothing, because the children are sorted. */
  lemma {:induction false} ReachedIs(cs: seq<Child>, start: nat, end: nat, i: nat, x: Byte)
    requires Sorted(cs) && i <= |cs|
    ensures x in Reached(cs, start, end, i) <==> start <= x <= end && exists n :: i <= n < |cs| && cs[n].anchor == x
    decreases |cs| - i
  {
    if i < |cs| {
      if start <= cs[i].anchor && end < cs[i].end {
        assert forall n :: i <= n < |cs| ==> cs[i].anchor <= cs[n].anchor;
      } else {
        ReachedIs(cs, start, end, i + 1, x);
      }
    }
  }

  lemma BatchClosed(k: Crypto, st: Store, id: NodeId, bytes: set<Byte>, b: BlockId, start: nat, end: nat)
    requires NonzeroHash(k) && GoodBelow(st, id.path) && OwnedBelow(st, id.path, b)
    requires id in st && id.blk == b && st[id].Branch? && |id.path| < ACCOUNT_SIZE
    ensures Batch(k, Staged(k, st, id, bytes, b), id, b, start, end)
         == Staged(k, st, id, bytes + Reached(st[id].children, start, end, 0), b)
  {
    var cs := st[id].children;
    var n := Branch(st[id].commit, RangedChildren(k, st, id, cs, bytes, b));
    var more := bytes + Reached(cs, start, end, 0);
    RangedHalf(k, st, id, bytes, b, st[id].commit);
    LoopClosed(k, st, id, bytes, b, n, start, end, 0);
    hide FinalizeLoop, RangedChildren, Final;
    RangedSet(k, st, id, more, b, n, Branch(st[id].commit, RangedChildren(k, st, id, cs, more, b)));
  }

  lemma RangedSet(k: Crypto, st: Store, id: NodeId, bytes: set<Byte>, b: BlockId, n: Node, n': Node)
    requires id in st
    ensures Ranged(k, st, id, bytes, b, n)[id := n'] == Ranged(k, st, id, bytes, b, n')
  {
    hide Final;
  }

  // ---------- all batches, any order ----------

  ghost function ReachedBy(cs: seq<Child>, ranges: seq<Range>): (r: set<Byte>) {
    if ranges == [] then {} else Reached(cs, ranges[0].start, ranges[0].end, 0) + ReachedBy(cs, ranges[1..])
  }

  lemma {:induction false} BatchesClosed(k: Crypto, st: Store, id: NodeId, bytes: set<Byte>, b: BlockId,
                                         ranges: seq<Range>)
    requires NonzeroHash(k) && GoodBelow(st, id.path) && OwnedBelow(st, id.path, b)
    requires id in st && id.blk == b && st[id].Branch? && |id.path| < ACCOUNT_SIZE
    ensures RunBatches(k, Staged(k, st, id, bytes, b), id, b, ranges)
         == Staged(k, st, id, bytes + ReachedBy(st[id].children, ranges), b)
    decreases |ranges|
  {
    var cs := st[id].children;
    if ranges == [] {
      assert bytes + {} == bytes;
    } else {
      var first := Reached(cs, ranges[0].start, ranges[0].end, 0);
      BatchClosed(k, st, id, bytes, b, ranges[0].start, ranges[0].end);
      hide Staged, Batch;
      BatchesClosed(k, st, id, bytes + first, b, ranges[1..]);
      assert (bytes + first) + ReachedBy(cs, ranges[1..]) == bytes + ReachedBy(cs, ranges);
    }
  }

  lemma {:induction false} CoveredReached(cs: seq<Child>, ranges: seq<Range>, n: nat)
    requires Sorted(cs) && n < |cs| && Covers(ranges, cs[n].anchor)
    ensures cs[n].anchor in ReachedBy(cs, ranges)
    decreases |ranges|
  {
    var r :| r in ranges && r.start <= cs[n].anchor <= r.end;
    if r == ranges[0] {
      ReachedIs(cs, r.start, r.end, 0, cs[n].anchor);
    } else {
      assert r in ranges[1..];
      assert Covers(ranges[1..], cs[n].anchor);
      CoveredReached(cs, ranges[1..], n);
    }
  }

  /** Main result: batches that cover all bytes, in any order and with any overlap, followed by the
      root commitment, give exactly what one recursive pass gives. */
  lemma AnyOrder(k: Crypto, st: Store, id: NodeId, b: BlockId, ranges: seq<Range>)
    requires NonzeroHash(k) && GoodBelow(st, id.path) && OwnedBelow(st, id.path, b)
    requires id in st && id.blk == b && st[id].Branch? && |id.path| < ACCOUNT_SIZE
    requires forall x: Byte :: Covers(ranges, x)
    ensures CommitRoot(k, RunBatches(k, st, id, b, ranges), id) == FinalizeAt(k, st, id, b)
    ensures FinalizeAt(k, st, id, b) == FinalStore(k, st, id.path, b)
  {
    assert NodeOk(st, id, st[id]);
    var cs := st[id].children;
    NothingRanged(k, st, id, b);
    assert Staged(k, st, id, {}, b) == st;
    BatchesClosed(k, st, id, {}, b, ranges);
    var all := ReachedBy(cs, ranges);
    assert {} + all == all;
    forall n | 0 <= n < |cs| ensures cs[n].anchor in all {
      CoveredReached(cs, ranges, n);
    }
    FinalizeClosed(k, st, id, b);
    hide FinalizeAt, RunBatches, Sorted, OwnedBelow, GoodBelow, FinalStore;
    RootDone(k, st, id, b, all);
  }

  lemma RootDone(k: Crypto, st: Store, id: NodeId, b: BlockId, all: set<Byte>)
    requires id in st && id.blk == b && st[id].Branch? && Sorted(st[id].children) && OwnedBelow(st, id.path, b) &&
             |id.path| < ACCOUNT_SIZE
    requires forall n :: 0 <= n < |st[id].children| ==> st[id].children[n].anchor in all
    ensures CommitRoot(k, Staged(k, st, id, all, b), id) == FinalStore(k, st, id.path, b)
  {
    AllChildren(k, st, id, b, all);
    BranchClosed(k, st, id, b, all);
    var n := Branch(st[id].commit, FinalChildren(k, st, id, st[id].children, b));
    var f := Final(k, st, id, b);
    assert f == Branch(Commit(k, BranchValues(n.children)), n.children);
    hide Final, Commit, BranchValues, FinalStore, RangedChildren, Sorted;
    RangedSet(k, st, id, all, b, n, f);
    RangedSet(k, st, id, all, b, st[id], f);
  }

  lemma BatchesCover(ranges: seq<Range>, x: Byte)
    requires forall r :: r in BATCHES ==> r in ranges
    ensures Covers(ranges, x)
  {
    var r := if x <= 64 then BATCHES[0] else if x <= 128 then BATCHES[1] else if x <= 192 then BATCHES[2]
        else BATCHES[3];
    assert r in BATCHES;
  }

  /** finalize_block, whatever order its four tasks run in. */
  lemma FourBatches(k: Crypto, st: Store, b: BlockId, ranges: seq<Range>)
    requires NonzeroHash(k) && Good(st) && Owned(st, b) && RootId(b) in st
    requires multiset(ranges) == multiset(BATCHES)
    ensures CommitRoot(k, RunBatches(k, st, RootId(b), b, ranges), RootId(b)) == FinalStore(k, st, [], b)
  {
    assert NodeOk(st, RootId(b), st[RootId(b)]);
    assert GoodBelow(st, []);
    forall r | r in BATCHES ensures r in ranges {
      assert r in multiset(BATCHES);
    }
    forall x: Byte ensures Covers(ranges, x) {
      BatchesCover(ranges, x);
    }
    AnyOrder(k, st, RootId(b), b, ranges);
  }

  /** Finalizing changes no reading of any block. */
  lemma FinalizeReads(k: Crypto, st: Store, b: BlockId, id: NodeId, key: Hash)
    requires NonzeroHash(k)
    ensures Lookup(FinalStore(k, st, [], b), id, key) == Lookup(st, id, key)
  {
    FinalStoreBetween(k, st, [], b);
    LookupBetween(k, st, FinalStore(k, st, [], b), b, id, key);
  }

  lemma FinalStoreBetween(k: Crypto, st: Store, path: seq<Byte>, b: BlockId)
    ensures Between(k, st, FinalStore(k, st, path, b), b)
  {
    hide Half, Final;
    var st' := FinalStore(k, st, path, b);
    forall i | i in st ensures Half(k, st, i, st'[i], b) {
      SelfIsHalf(k, st, i, b);
      if i.blk == b {
        FinalIsHalf(k, st, i, b);
      }
    }
  }
}

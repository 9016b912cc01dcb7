/** Finished trees and what the operations do to them. A write under a block changes nothing that another
    block finished, and leaves its own block unfinished only where it wrote.
 */
module SealedTrees {
  import opened Options
  import opened Scalars
  import opened Polynomials
  import opened InverseFft
  import opened TrieTypes
  import opened Children
  import opened Trie
  import opened TrieOps
  import opened Isolation
  import opened Ownership
  import opened Justifying
  import opened LedgerSpec
  import opened LedgerRuns
  import opened Finalizing
  import opened ExistenceProofs

  // ---------- what is below is what matters ----------

  lemma {:induction false} SealedAgree(k: Crypto, st: Store, st': Store, id: NodeId)
    requires Sealed(k, st, id) && AgreeBelow(st, st', id.path)
    ensures Sealed(k, st', id)
    decreases ACCOUNT_SIZE - |id.path|, 1
  {
    assert SameAt(st, st', id);
    if st[id].Branch? {
      var cs := st[id].children;
      hide Commit, BranchValues, AgreeBelow;
      forall i | 0 <= i < |cs| ensures SealedChild(k, st', id, cs[i]) {
        assert SealedChild(k, st, id, cs[i]);
        AgreeDeeper(st, st', id.path, id.path + [cs[i].anchor]);
        SealedChildAgree(k, st, st', id, id, cs[i]);
      }
    }
  }

  /** The same entry at another node of the same path. */
  lemma {:induction false} SealedChildAgree(k: Crypto, st: Store, st': Store, id: NodeId, id': NodeId, c: Child)
    requires |id.path| < ACCOUNT_SIZE && id'.path == id.path
    requires SealedChild(k, st, id, c) && AgreeBelow(st, st', id.path + [c.anchor])
    ensures SealedChild(k, st', id', c)
    decreases ACCOUNT_SIZE - |id.path|, 0
  {
    var child := Below(id, c.anchor, c.blk);
    assert SameAt(st, st', child);
    SealedAgree(k, st, st', child);
  }

  lemma {:induction false} OthersAgree(k: Crypto, st: Store, st': Store, id: NodeId, b: BlockId)
    requires OthersSealed(k, st, id, b) && AgreeBelow(st, st', id.path)
    ensures OthersSealed(k, st', id, b)
    decreases ACCOUNT_SIZE - |id.path|, 1
  {
    assert SameAt(st, st', id);
    if st[id].Branch? {
      var cs := st[id].children;
      hide AgreeBelow;
      forall i | 0 <= i < |cs| ensures OthersSealedChild(k, st', id, cs[i], b) {
        assert OthersSealedChild(k, st, id, cs[i], b);
        AgreeDeeper(st, st', id.path, id.path + [cs[i].anchor]);
        OthersChildAgree(k, st, st', id, id, cs[i], b);
      }
    }
  }

  lemma {:induction false} OthersChildAgree(k: Crypto, st: Store, st': Store, id: NodeId, id': NodeId, c: Child,
                                            b: BlockId)
    requires |id.path| < ACCOUNT_SIZE && id'.path == id.path
    requires OthersSealedChild(k, st, id, c, b) && AgreeBelow(st, st', id.path + [c.anchor])
    ensures OthersSealedChild(k, st', id', c, b)
    decreases ACCOUNT_SIZE - |id.path|, 0
  {
    if c.blk == b {
      OthersAgree(k, st, st', Below(id, c.anchor, b), b);
    } else {
      SealedChildAgree(k, st, st', id, id', c);
    }
  }

  /** In a finished tree all is finished that a block could take over. */
  lemma {:induction false} SealedOthers(k: Crypto, st: Store, id: NodeId, b: BlockId)
    requires Sealed(k, st, id)
    ensures OthersSealed(k, st, id, b)
    decreases ACCOUNT_SIZE - |id.path|, 1
  {
    if st[id].Branch? {
      var cs := st[id].children;
      hide Commit, BranchValues;
      forall i | 0 <= i < |cs| ensures OthersSealedChild(k, st, id, cs[i], b) {
        assert SealedChild(k, st, id, cs[i]);
        SealedChildOthers(k, st, id, cs[i], b);
      }
    }
  }

  lemma {:induction false} SealedChildOthers(k: Crypto, st: Store, id: NodeId, c: Child, b: BlockId)
    requires |id.path| < ACCOUNT_SIZE && SealedChild(k, st, id, c)
    ensures OthersSealedChild(k, st, id, c, b) && OthersSealed(k, st, Below(id, c.anchor, c.blk), b)
    decreases ACCOUNT_SIZE - |id.path|, 0
  {
    SealedOthers(k, st, Below(id, c.anchor, c.blk), b);
  }

  /** What b does leaves the rest of c's tree as it was, if c has no part of b in it. */
  lemma {:induction false} OthersKept(k: Crypto, st: Store, st': Store, id: NodeId, c: BlockId, b: BlockId)
    requires OthersSealed(k, st, id, c) && SameOutside(st, st', b) && Exclusive(st, b) && id.blk == c != b
    ensures OthersSealed(k, st', id, c)
    decreases ACCOUNT_SIZE - |id.path|
  {
    assert SameAt(st, st', id);
    if st[id].Branch? {
      var cs := st[id].children;
      assert NoChildOf(st[id], b);
      hide Exclusive, SameOutside;
      forall i | 0 <= i < |cs| ensures OthersSealedChild(k, st', id, cs[i], c) {
        assert OthersSealedChild(k, st, id, cs[i], c);
        if cs[i].blk == c {
          OthersKept(k, st, st', Below(id, cs[i].anchor, c), c, b);
        } else {
          SealedChildUndisturbed(k, st, st', id, cs[i], b);
        }
      }
    }
  }

  // ---------- put, replace and create_account ----------

  /** Under another byte than the written one nothing changed. */
  lemma OtherByteAgrees(st: Store, st1: Store, id: NodeId, nib: Byte, b: BlockId, n: Node, x: Byte)
    requires Confined(st, st1, id.path + [nib], b) && x != nib
    ensures AgreeBelow(st, st1[NodeId(id.path, b) := n], id.path + [x])
  {
    var st' := st1[NodeId(id.path, b) := n];
    forall j: NodeId | id.path + [x] <= j.path ensures SameAt(st, st', j) {
      PrefixByte(id.path, x, j.path);
      PrefixByte(id.path, nib, j.path);
    }
  }

  lemma SetAgrees(st1: Store, path: seq<Byte>, b: BlockId, n: Node, x: Byte)
    ensures AgreeBelow(st1, st1[NodeId(path, b) := n], path + [x])
  {
    forall j: NodeId | path + [x] <= j.path ensures SameAt(st1, st1[NodeId(path, b) := n], j) {
      assert |j.path| > |path|;
    }
  }

  /** The last step of a write in a branch. */
  lemma AfterChildSealed(k: Crypto, st: Store, st1: Store, id: NodeId, nib: Byte, b: BlockId, n: Node)
    requires OthersSealed(k, st, id, b) && st[id].Branch? && Sorted(st[id].children)
    requires Confined(st, st1, id.path + [nib], b) && OthersSealed(k, st1, Below(id, nib, b), b)
    requires n.Branch? && n.children == Insert(st[id].children, nib, b)
    ensures OthersSealed(k, st1[NodeId(id.path, b) := n], NodeId(id.path, b), b)
  {
    var self, cs := NodeId(id.path, b), st[id].children;
    var st' := st1[self := n];
    hide Insert, Sorted, Confined, AgreeBelow;
    forall i | 0 <= i < |n.children| ensures OthersSealedChild(k, st', self, n.children[i], b) {
      var c := n.children[i];
      InsertMember(cs, nib, b, c);
      if c.anchor == nib {
        SetAgrees(st1, id.path, b, n, nib);
        OthersAgree(k, st1, st', Below(id, nib, b), b);
      } else {
        var j :| 0 <= j < |cs| && cs[j] == c;
        assert OthersSealedChild(k, st, id, cs[j], b);
        OtherByteAgrees(st, st1, id, nib, b, n, c.anchor);
        OthersChildAgree(k, st, st', id, self, c, b);
      }
    }
  }

  /** The child that a write descends into. */
  lemma EntryOthers(k: Crypto, st: Store, id: NodeId, b: BlockId, nib: Byte)
    requires OthersSealed(k, st, id, b) && st[id].Branch? && Sorted(st[id].children) && Next(st[id].children, nib).Some?
    ensures OthersSealed(k, st, Below(id, nib, Next(st[id].children, nib).value), b)
  {
    var n := NextMember(st[id].children, nib);
    var c := st[id].children[n];
    assert OthersSealedChild(k, st, id, c, b);
    if c.blk != b {
      SealedChildOthers(k, st, id, c, b);
    }
  }

  /** A write leaves everything its block took over finished. */
  lemma {:induction false} ReplaceOthers(k: Crypto, st: Store, id: NodeId, key: Hash, val: Hash, prev: Option<Hash>,
                                         b: BlockId)
    requires Good(st) && OthersSealed(k, st, id, b) && ReplaceAt(st, id, key, val, prev, b).0 == Ok
    ensures OthersSealed(k, ReplaceAt(st, id, key, val, prev, b).1, NodeId(id.path, b), b)
    decreases ACCOUNT_SIZE - |id.path|
  {
    assert NodeOk(st, id, st[id]);
    if st[id].Branch? {
      var nib := key[|id.path|];
      NextOk(st, id, st[id].children, nib);
      var next := Next(st[id].children, nib);
      ReplaceStep(st, id, key, val, prev, b, next.value);
      EntryOthers(k, st, id, b, nib);
      hide Next, Good, Sorted, OthersSealed, ReplaceAt, Insert;
      var child := Below(id, nib, next.value);
      ReplaceOthers(k, st, child, key, val, prev, b);
      ReplaceConfined(st, child, key, val, prev, b);
      var n := Branch(st[id].commit, Insert(st[id].children, nib, b));
      AfterChildSealed(k, st, ReplaceAt(st, child, key, val, prev, b).1, id, nib, b, n);
    }
  }

  lemma FreshEntries(x: Byte, y: Byte, b: BlockId, c: Child)
    requires c in if x == y then Insert([], x, b) else Insert(Insert([], x, b), y, b)
    ensures c.blk == b && (c.anchor == x || c.anchor == y)
  {
    InsertSorted([], x, b);
    hide Insert;
    if x != y {
      InsertMember(Insert([], x, b), y, b, c);
    }
    if c in Insert([], x, b) {
      InsertMember([], x, b, c);
    }
  }

  lemma {:induction false} SplitOthers(k: Crypto, st: Store, path: seq<Byte>, b: BlockId, leaf: Node, key: Hash)
    requires leaf.Leaf? && PartWithin(path, leaf.path, key) && |path| <= PATH_SIZE
    ensures OthersSealed(k, SplitAt(st, path, b, leaf, key), NodeId(path, b), b)
    decreases ACCOUNT_SIZE - |path|
  {
    var nib, old_ := key[|path|], leaf.path[|path|];
    PartDeeper(path, leaf.path, key);
    var self, st' := NodeId(path, b), SplitAt(st, path, b, leaf, key);
    if nib == old_ {
      var st1 := SplitAt(st, path + [nib], b, leaf, key);
      SplitOthers(k, st, path + [nib], b, leaf, key);
      SetAgrees(st1, path, b, st'[self], nib);
      OthersAgree(k, st1, st', NodeId(path + [nib], b), b);
    }
    var cs := st'[self].children;
    forall i | 0 <= i < |cs| ensures OthersSealedChild(k, st', self, cs[i], b) {
      FreshEntries(nib, old_, b, cs[i]);
      if nib != old_ {
        assert st'[NodeId(path + [nib], b)].Leaf? && st'[NodeId(path + [old_], b)].Leaf?;
      }
    }
  }

  lemma {:induction false} CreateOthers(k: Crypto, st: Store, id: NodeId, key: Hash, b: BlockId)
    requires Good(st) && id.path <= key && Separate(st, key) && OthersSealed(k, st, id, b) &&
             CreateAt(st, id, key, b).0 == Ok
    ensures OthersSealed(k, CreateAt(st, id, key, b).1, NodeId(id.path, b), b)
    decreases ACCOUNT_SIZE - |id.path|
  {
    assert NodeOk(st, id, st[id]);
    if st[id].Leaf? {
      SplitSeparate(st, id, key);
      SplitOthers(k, st, id.path, b, st[id], key);
    } else {
      var cs, nib := st[id].children, key[|id.path|];
      NextOk(st, id, cs, nib);
      PrefixStep(id.path, key);
      var n := Branch(st[id].commit, Insert(cs, nib, b));
      var next := Next(cs, nib);
      if next.Some? {
        EntryOthers(k, st, id, b, nib);
        var child := Below(id, nib, next.value);
        hide Next, Good, Sorted, OthersSealed, Insert, Separate;
        CreateOthers(k, st, child, key, b);
        CreateConfined(st, child, key, b);
        AfterChildSealed(k, st, CreateAt(st, child, key, b).1, id, nib, b, n);
      } else {
        var child := Below(id, nib, b);
        hide Next, Good, Sorted, Insert, Separate;
        ConfinedSet(st, st, child.path, b, NewLeaf(key, b));
        assert OthersSealed(k, st[child := NewLeaf(key, b)], child, b);
        AfterChildSealed(k, st, st[child := NewLeaf(key, b)], id, nib, b, n);
      }
    }
  }

  // ---------- opening a block ----------

  /** A root with the same node over the same subtrees. */
  lemma RootSealed(k: Crypto, st: Store, st': Store, c: BlockId)
    requires Sealed(k, st, RootId(c)) && SameAt(st, st', RootId(c)) && forall x: Byte :: AgreeBelow(st, st', [x])
    ensures Sealed(k, st', RootId(c))
  {
    if st[RootId(c)].Branch? {
      var cs := st[RootId(c)].children;
      hide Commit, BranchValues, AgreeBelow;
      forall i | 0 <= i < |cs| ensures SealedChild(k, st', RootId(c), cs[i]) {
        assert SealedChild(k, st, RootId(c), cs[i]);
        assert [] + [cs[i].anchor] == [cs[i].anchor];
        SealedChildAgree(k, st, st', RootId(c), RootId(c), cs[i]);
      }
    }
  }

  lemma RootOthers(k: Crypto, st: Store, st': Store, c: BlockId)
    requires OthersSealed(k, st, RootId(c), c) && SameAt(st, st', RootId(c)) &&
             forall x: Byte :: AgreeBelow(st, st', [x])
    ensures OthersSealed(k, st', RootId(c), c)
  {
    if st[RootId(c)].Branch? {
      var cs := st[RootId(c)].children;
      hide AgreeBelow;
      forall i | 0 <= i < |cs| ensures OthersSealedChild(k, st', RootId(c), cs[i], c) {
        assert OthersSealedChild(k, st, RootId(c), cs[i], c);
        assert [] + [cs[i].anchor] == [cs[i].anchor];
        OthersChildAgree(k, st, st', RootId(c), RootId(c), cs[i], c);
      }
    }
  }

  /** A block opened on a finished one takes over finished subtrees only. */
  lemma OpenedOthers(k: Crypto, st: Store, b: BlockId, prev: BlockId)
    requires RootId(b) !in st && (RootId(prev) in st ==> Sealed(k, st, RootId(prev)))
    ensures OthersSealed(k, GetRoot(st, b, prev), RootId(b), b)
  {
    var st' := GetRoot(st, b, prev);
    OpenedRoot(st, b, prev);
    hide GetRoot, Recoded;
    if RootId(prev) in st {
      RecodedEntries(st[RootId(prev)]);
    }
    if st'[RootId(b)].Branch? && RootId(prev) in st {
      var old_, cs := st[RootId(prev)].children, st'[RootId(b)].children;
      forall i | 0 <= i < |cs| ensures OthersSealedChild(k, st', RootId(b), cs[i], b) {
        assert cs[i] in old_;
        var j :| 0 <= j < |old_| && old_[j] == cs[i];
        assert SealedChild(k, st, RootId(prev), old_[j]);
        SealedChildOthers(k, st, RootId(prev), cs[i], b);
        RootsOnly(st, b, prev, cs[i].anchor);
        assert [] + [cs[i].anchor] == [cs[i].anchor];
        OthersChildAgree(k, st, st', RootId(prev), RootId(b), cs[i], b);
      }
    }
  }

  /** The roots that were there are as finished as before. */
  lemma OpenKeepsSealed(k: Crypto, st: Store, b: BlockId, prev: BlockId, c: BlockId)
    requires RootId(c) in st
    ensures Sealed(k, st, RootId(c)) ==> Sealed(k, GetRoot(st, b, prev), RootId(c))
    ensures OthersSealed(k, st, RootId(c), c) ==> OthersSealed(k, GetRoot(st, b, prev), RootId(c), c)
  {
    var st' := GetRoot(st, b, prev);
    OpenedRoot(st, b, prev);
    assert SameAt(st, st', RootId(c));
    forall x: Byte ensures AgreeBelow(st, st', [x]) {
      RootsOnly(st, b, prev, x);
    }
    hide GetRoot, AgreeBelow;
    if Sealed(k, st, RootId(c)) {
      RootSealed(k, st, st', c);
    }
    if OthersSealed(k, st, RootId(c), c) {
      RootOthers(k, st, st', c);
    }
  }

  // ---------- the empty root ----------

  lemma {:induction false} EvalZeros(a: seq<Scalar>, x: Scalar)
    requires forall i :: 0 <= i < |a| ==> a[i] == 0
    ensures Eval(a, x) == 0
  {
    hide Add, Mul;
    if a != [] {
      EvalZeros(a[1..], x);
      MulZero(x);
      AddZero(0);
    }
  }

  /** An empty root is finished as it is made. */
  lemma EmptySealed(k: Crypto, st: Store, id: NodeId)
    requires id in st && |id.path| < ACCOUNT_SIZE && st[id] == Branch(0, [])
    ensures Sealed(k, st, id)
  {
    var f := BranchValues([]);
    hide Add, Mul, Eval, Pow, Inv;
    forall i | 0 <= i < |f| ensures Interpolate(f, k.v)[i] == 0 {
      EvalZeros(f, Pow(k.v, i));
      MulZero(Inv(Num(|f|)));
    }
    EvalZeros(Interpolate(f, k.v), k.s);
  }

  // ---------- justify ----------

  lemma ClearedValues(cs: seq<Child>)
    ensures BranchValues(Cleared(cs)) == BranchValues(cs)
  {
    forall i: Byte ensures ScalarAt(Cleared(cs), i) == ScalarAt(cs, i) {
      ClearedEntry(cs, i);
    }
  }

  /** The justified child is finished and has the commitment it had. */
  ghost predicate KeptChild(k: Crypto, st: Store, st1: Store, id: NodeId, c: Child, b: BlockId)
    requires |id.path| < ACCOUNT_SIZE
  {
    var was, now := Below(id, c.anchor, b), Below(id, c.anchor, CANONICAL);
    was in st && now in st1 && Sealed(k, st1, now) && st1[now].commit == st[was].commit
  }

  ghost predicate KeptBefore(k: Crypto, st: Store, st1: Store, id: NodeId, cs: seq<Child>, b: BlockId, i: nat)
    requires |id.path| < ACCOUNT_SIZE && i <= |cs|
  {
    forall n :: 0 <= n < i && cs[n].blk == b ==> KeptChild(k, st, st1, id, cs[n], b)
  }

  lemma KeptAgree(k: Crypto, st: Store, st1: Store, st2: Store, id: NodeId, c: Child, b: BlockId)
    requires |id.path| < ACCOUNT_SIZE && KeptChild(k, st, st1, id, c, b) && AgreeBelow(st1, st2, id.path + [c.anchor])
    ensures KeptChild(k, st, st2, id, c, b)
  {
    var now := Below(id, c.anchor, CANONICAL);
    assert SameAt(st1, st2, now);
    SealedAgree(k, st1, st2, now);
  }

  lemma KeptStep(k: Crypto, st: Store, st1: Store, st2: Store, id: NodeId, cs: seq<Child>, b: BlockId, i: nat)
    requires |id.path| < ACCOUNT_SIZE && i < |cs| && Sorted(cs) && cs[i].blk == b &&
             KeptBefore(k, st, st1, id, cs, b, i)
    requires KeptChild(k, st, st2, id, cs[i], b)
    requires forall j: NodeId :: !(id.path + [cs[i].anchor] <= j.path) ==> SameAt(st1, st2, j)
    ensures KeptBefore(k, st, st2, id, cs, b, i + 1)
  {
    forall n | 0 <= n < i + 1 && cs[n].blk == b ensures KeptChild(k, st, st2, id, cs[n], b) {
      if n < i {
        assert cs[n].anchor < cs[i].anchor;
        hide Sorted, KeptChild;
        SiblingAgree(st1, st2, id.path, cs[i].anchor, cs[n].anchor);
        KeptAgree(k, st, st1, st2, id, cs[n], b);
      }
    }
  }

  lemma {:induction false} KeptLoop(k: Crypto, st: Store, st1: Store, id: NodeId, cs: seq<Child>, b: BlockId, i: nat)
    requires GoodBelow(st, id.path) && Sealed(k, st, id) && id.blk == b && b != CANONICAL && st[id].Branch? &&
             cs == st[id].children
    requires OwnedBelow(st, id.path, b) && Pending(st, id.path, b) && i <= |cs|
    requires JustifiedBefore(st, st1, id, cs, b, i) && KeptBefore(k, st, st1, id, cs, b, i)
    ensures KeptBefore(k, st, JustifyChildren(st1, id, cs, b, i).1, id, cs, b, |cs|)
    decreases ACCOUNT_SIZE - |id.path|, 0, |cs| - i
  {
    if i < |cs| {
      assert NodeOk(st, id, st[id]);
      assert cs[i].blk == CANONICAL || cs[i].blk == b by { assert OnlyTwo(st[id], b); }
      assert SealedChild(k, st, id, cs[i]);
      hide GoodBelow, OwnedBelow, JustifiedBefore, Sorted, Justified, Pending, NodeOk, KeptChild;
      if cs[i].blk == CANONICAL {
        JustifySkip(st, st1, id, cs, b, i);
        KeptLoop(k, st, st1, id, cs, b, i + 1);
      } else {
        var child := Below(id, cs[i].anchor, b);
        JustifyChildReady(st, st1, id, b, i);
        JustifyCorrect(st1, child, b);
        KeptNext(k, st, st1, id, cs, b, i);
        var st2 := JustifyAt(st1, child, b).1;
        JustifyStep(st, st1, st2, id, cs, b, i);
        KeptStep(k, st, st1, st2, id, cs, b, i);
        KeptLoop(k, st, st2, id, cs, b, i + 1);
      }
    }
  }

  lemma NextStillSealed(k: Crypto, st: Store, st1: Store, id: NodeId, b: BlockId, i: nat)
    requires Sealed(k, st, id) && st[id].Branch? && Sorted(st[id].children) && i < |st[id].children| &&
             st[id].children[i].blk == b
    requires JustifiedBefore(st, st1, id, st[id].children, b, i)
    ensures var child := Below(id, st[id].children[i].anchor, b);
            child in st && SameAt(st, st1, child) && Sealed(k, st1, child)
  {
    var cs := st[id].children;
    assert SealedChild(k, st, id, cs[i]);
    UntouchedBelow(st, st1, id, cs, b, i, cs[i].anchor);
    hide JustifiedBefore, Sorted, Commit, BranchValues;
    SealedAgree(k, st, st1, Below(id, cs[i].anchor, b));
  }

  lemma {:induction false} KeptNext(k: Crypto, st: Store, st1: Store, id: NodeId, cs: seq<Child>, b: BlockId, i: nat)
    requires GoodBelow(st, id.path) && Sealed(k, st, id) && id.blk == b && b != CANONICAL && st[id].Branch? &&
             cs == st[id].children
    requires OwnedBelow(st, id.path, b) && Pending(st, id.path, b) && i < |cs| && cs[i].blk == b &&
             JustifiedBefore(st, st1, id, cs, b, i)
    ensures KeptChild(k, st, JustifyAt(st1, Below(id, cs[i].anchor, b), b).1, id, cs[i], b)
    decreases ACCOUNT_SIZE - |id.path|, 0, 0
  {
    assert NodeOk(st, id, st[id]);
    assert id in st && |id.path| < ACCOUNT_SIZE;
    hide GoodBelow, OwnedBelow, Justified, Pending, NodeOk, JustifyAt, Sealed, JustifiedBefore, Sorted;
    NextStillSealed(k, st, st1, id, b, i);
    JustifyChildReady(st, st1, id, b, i);
    JustifySealed(k, st1, Below(id, cs[i].anchor, b), b);
  }

  /** A finished block stays finished when it becomes canonical. */
  lemma {:induction false} JustifySealed(k: Crypto, st: Store, id: NodeId, b: BlockId)
    requires GoodBelow(st, id.path) && Sealed(k, st, id) && id.blk == b && b != CANONICAL
    requires st[id].Branch? && id.path == [] ==> st[id].children != []
    requires OwnedBelow(st, id.path, b) && Pending(st, id.path, b)
    ensures var st', now := JustifyAt(st, id, b).1, NodeId(id.path, CANONICAL);
            Sealed(k, st', now) && st'[now].commit == st[id].commit
    decreases ACCOUNT_SIZE - |id.path|, 1, 0
  {
    assert NodeOk(st, id, st[id]);
    if st[id].Branch? {
      var cs := st[id].children;
      JustifyLoop(st, st, id, cs, b, 0);
      KeptLoop(k, st, st, id, cs, b, 0);
      var st1 := JustifyChildren(st, id, cs, b, 0).1;
      var st' := JustifyAt(st, id, b).1;
      assert st' == (st1 - {id})[NodeId(id.path, CANONICAL) := Branch(st[id].commit, Cleared(cs))];
      hide Justified, JustifiedBefore, GoodBelow, OwnedBelow, Pending, Sorted, NodeOk, JustifyAt, JustifyChildren,
          KeptBefore, Cleared;
      KeptBranch(k, st, st1, st', id, b);
    }
  }

  lemma KeptBranch(k: Crypto, st: Store, st1: Store, st': Store, id: NodeId, b: BlockId)
    requires Sealed(k, st, id) && id.blk == b && b != CANONICAL && st[id].Branch? && Sorted(st[id].children) &&
             OnlyTwo(st[id], b)
    requires JustifiedBefore(st, st1, id, st[id].children, b, |st[id].children|) &&
             KeptBefore(k, st, st1, id, st[id].children, b, |st[id].children|)
    requires st' == (st1 - {id})[NodeId(id.path, CANONICAL) := Branch(st[id].commit, Cleared(st[id].children))]
    ensures Sealed(k, st', NodeId(id.path, CANONICAL))
  {
    var cs, self := st[id].children, NodeId(id.path, CANONICAL);
    ClearedValues(cs);
    hide Commit, BranchValues, JustifiedBefore, AgreeBelow;
    forall i | 0 <= i < |cs| ensures SealedChild(k, st', self, Cleared(cs)[i]) {
      var c := cs[i];
      assert SealedChild(k, st, id, c);
      SettleAgree(st1, st', id, Branch(st[id].commit, Cleared(cs)), c.anchor);
      if c.blk == b {
        assert KeptChild(k, st, st1, id, c, b);
        SealedChildAgree(k, st1, st', id, self, c.(blk := CANONICAL));
      } else {
        forall m | 0 <= m < |cs| && cs[m].blk == b ensures cs[m].anchor != c.anchor {
          assert m != i;
        }
        UntouchedBelow(st, st1, id, cs, b, |cs|, c.anchor);
        SealedChildAgree(k, st, st1, id, self, c);
        SealedChildAgree(k, st1, st', self, self, c);
      }
    }
  }
}

/** put, replace and create_account on the nodes of one block (branch.cpp:215-352, leaf.cpp:143-307).

    A node of another block is never changed: it is copied under the block being written
    (recache), and the copy is changed. Over the flat store that is one map update.
 */
module TrieOps {
  import opened Options
  import opened TrieTypes
  import opened Children
  import opened Trie

  // ---------- replace ----------

  /** Leaf::replace and Branch::replace; put is the case without a previous value. */
  function ReplaceAt(st: Store, id: NodeId, key: Hash, val: Hash, prev: Option<Hash>, b: BlockId): (r: (Code, Store))
    decreases ACCOUNT_SIZE - |id.path|
  {
    if id !in st || |id.path| >= ACCOUNT_SIZE then (LoadNodeErr, st)
    else
      match st[id]
      case Leaf(_, _, _, _) =>
        var (rc, n) := ReplaceLeaf(st[id], |id.path|, key, val, prev, b);
        (rc, if rc == Ok then st[NodeId(id.path, b) := n] else st)
      case Branch(commit, cs) =>
        var nib := key[|id.path|];
        match Next(cs, nib)
        case None => (NotExist, st)
        case Some(c) =>
          var (rc, st') := ReplaceAt(st, Below(id, nib, c), key, val, prev, b);
          (rc, if rc == Ok then st'[NodeId(id.path, b) := Branch(commit, Insert(cs, nib, b))] else st')
  }

  function ReplaceLeaf(n: Node, level: nat, key: Hash, val: Hash, prev: Option<Hash>, b: BlockId): (r: (Code, Node))
    requires n.Leaf? && level <= ACCOUNT_SIZE
  {
    var nib := key[ACCOUNT_SIZE];
    if nib == 0 then (LeafIdxZero, n)
    else if !SamePath(n.path, key, level) then (NotExist, n)
    else if nib >= |n.slots| || nib >= |n.slotBlks| then (LoadNodeErr, n)
    else if prev.Some? && n.slots[nib] != prev.value then (InvalidPrevValHash, n)
    else (Ok, n.(slots := n.slots[nib := val], slotBlks := n.slotBlks[nib := b]))
  }

  /** The answer replace owes for the slots the account has. */
  function ReplaceCode(slots: Option<seq<Hash>>, nib: Byte, prev: Option<Hash>): (c: Code) {
    match slots
    case None => NotExist
    case Some(s) =>
      if nib >= |s| then LoadNodeErr
      else if prev.Some? && s[nib] != prev.value then InvalidPrevValHash
      else Ok
  }

  /** One step of the descent. */
  lemma ReplaceStep(st: Store, id: NodeId, key: Hash, val: Hash, prev: Option<Hash>, b: BlockId, c: BlockId)
    requires id in st && |id.path| < ACCOUNT_SIZE && st[id].Branch? && Next(st[id].children, key[|id.path|]) == Some(c)
    ensures var nib := key[|id.path|];
            var r := ReplaceAt(st, Below(id, nib, c), key, val, prev, b);
            var n := Branch(st[id].commit, Insert(st[id].children, nib, b));
            && ReplaceAt(st, id, key, val, prev, b) == (r.0, if r.0 == Ok then r.1[NodeId(id.path, b) := n] else r.1)
            && Lookup(st, id, key) == Lookup(st, Below(id, nib, c), key)
  {
    hide Next, Insert;
  }

  /** An operation that is refused changes nothing. */
  lemma {:induction false} ReplaceRefused(st: Store, id: NodeId, key: Hash, val: Hash, prev: Option<Hash>, b: BlockId)
    ensures ReplaceAt(st, id, key, val, prev, b).0 != Ok ==> ReplaceAt(st, id, key, val, prev, b).1 == st
    decreases ACCOUNT_SIZE - |id.path|
  {
    if id in st && |id.path| < ACCOUNT_SIZE && st[id].Branch? {
      var nib := key[|id.path|];
      var next := Next(st[id].children, nib);
      hide Next;
      if next.Some? {
        ReplaceRefused(st, Below(id, nib, next.value), key, val, prev, b);
      }
    }
  }

  /** The result code is what the reading of the block says. Slot 0 is never written. */
  lemma {:induction false} ReplaceResult(st: Store, id: NodeId, key: Hash, val: Hash, prev: Option<Hash>, b: BlockId)
    requires Good(st) && id in st
    ensures var rc := ReplaceAt(st, id, key, val, prev, b).0;
            var nib := key[ACCOUNT_SIZE];
            if nib != 0 then rc == ReplaceCode(Lookup(st, id, key), nib, prev)
            else rc in {NotExist, LeafIdxZero} && (Lookup(st, id, key).Some? ==> rc == LeafIdxZero)
    decreases ACCOUNT_SIZE - |id.path|
  {
    assert NodeOk(st, id, st[id]);
    if st[id].Branch? {
      var cs, nib := st[id].children, key[|id.path|];
      NextOk(st, id, cs, nib);
      var next := Next(cs, nib);
      hide Next, Good, NodeOk;
      if next.Some? {
        ReplaceResult(st, Below(id, nib, next.value), key, val, prev, b);
      }
    }
  }

  /** Only nodes of block b at and below the starting path change, and the store stays good. */
  lemma {:induction false} ReplaceConfined(st: Store, id: NodeId, key: Hash, val: Hash, prev: Option<Hash>, b: BlockId)
    requires Good(st) && id in st && ReplaceAt(st, id, key, val, prev, b).0 == Ok
    ensures var st' := ReplaceAt(st, id, key, val, prev, b).1;
            Good(st') && Confined(st, st', id.path, b) && NodeId(id.path, b) in st'
    decreases ACCOUNT_SIZE - |id.path|
  {
    assert NodeOk(st, id, st[id]);
    var st' := ReplaceAt(st, id, key, val, prev, b).1;
    if st[id].Leaf? {
      var n := ReplaceLeaf(st[id], |id.path|, key, val, prev, b).1;
      assert st' == st[NodeId(id.path, b) := n];
      hide Good;
      GoodSet(st, st, NodeId(id.path, b), n);
      ConfinedSet(st, st, id.path, b, n);
    } else {
      var cs, nib := st[id].children, key[|id.path|];
      NextOk(st, id, cs, nib);
      var c := Below(id, nib, Next(cs, nib).value);
      var st1 := ReplaceAt(st, c, key, val, prev, b).1;
      var n := Branch(st[id].commit, Insert(cs, nib, b));
      assert st' == st1[NodeId(id.path, b) := n];
      ReplaceConfined(st, c, key, val, prev, b);
      AfterChild(st, st1, id, nib, b, n);
    }
  }

  /** The common last step of replace and create_account in a branch. */
  lemma AfterChild(st: Store, st1: Store, id: NodeId, nib: Byte, b: BlockId, n: Node)
    requires Good(st) && Good(st1) && id in st && st[id].Branch?
    requires Confined(st, st1, id.path + [nib], b) && Below(id, nib, b) in st1
    requires n == Branch(st[id].commit, Insert(st[id].children, nib, b))
    ensures var st' := st1[NodeId(id.path, b) := n];
            Good(st') && Confined(st, st', id.path, b)
  {
    assert NodeOk(st, id, st[id]);
    ConfinedWider(st, st1, id.path, id.path + [nib], b);
    ConfinedSet(st, st1, id.path, b, n);
    var self := NodeId(id.path, b);
    hide Good, Insert;
    BranchInsertOk(st, id, st[id].children, nib, b, n.commit, st1[self := n]);
    GoodSet(st, st1, self, n);
  }

  /** What the branch of block b reads afterwards, from what its changed child reads. */
  lemma AfterChildReads(st: Store, st1: Store, id: NodeId, nib: Byte, b: BlockId, n: Node, k: Hash)
    requires Good(st) && id in st && st[id].Branch? && id.path <= k
    requires Confined(st, st1, id.path + [nib], b)
    requires n == Branch(st[id].commit, Insert(st[id].children, nib, b))
    ensures var st' := st1[NodeId(id.path, b) := n];
            Lookup(st', NodeId(id.path, b), k)
            == if k[|id.path|] == nib then Lookup(st1, Below(id, nib, b), k) else Lookup(st, id, k)
  {
    assert NodeOk(st, id, st[id]);
    var self, st', cs := NodeId(id.path, b), st1[NodeId(id.path, b) := n], st[id].children;
    var other := k[|id.path|];
    NextInsert(cs, nib, b, other);
    assert Lookup(st', self, k) == match Next(n.children, other) case None => None case Some(c) => Lookup(st',
           Below(self, other, c), k);
    hide Good, Insert, Confined, NodeOk, Next, AgreeBelow;
    if other == nib {
      SetAgree(st1, id.path, b, n, nib);
      LookupAgree(st1, st', Below(id, nib, b), k);
    } else {
      ConfinedSibling(st, st1, id.path, nib, other, b, n);
      var next := Next(cs, other);
      if next.Some? {
        LookupAgree(st, st', Below(id, other, next.value), k);
      }
    }
  }

  /** Main result for replace: the named slot of the named account, and nothing else. */
  lemma {:induction false} ReplaceReads(st: Store, id: NodeId, key: Hash, val: Hash, prev: Option<Hash>, b: BlockId,
                                        k: Hash)
    requires Good(st) && id in st && id.path <= key && id.path <= k
    requires ReplaceAt(st, id, key, val, prev, b).0 == Ok
    ensures var old_ := Lookup(st, id, key);
            && old_.Some? && key[ACCOUNT_SIZE] < |old_.value|
            && Lookup(ReplaceAt(st, id, key, val, prev, b).1, NodeId(id.path, b), k)
               == if Account(k) == Account(key) then Some(old_.value[key[ACCOUNT_SIZE] := val]) else Lookup(st, id, k)
    decreases ACCOUNT_SIZE - |id.path|
  {
    assert NodeOk(st, id, st[id]);
    if st[id].Leaf? {
      SameAccount(id.path, st[id].path, k);
      SameAccount(id.path, st[id].path, key);
    } else {
      var cs, nib := st[id].children, key[|id.path|];
      NextOk(st, id, cs, nib);
      var c := Below(id, nib, Next(cs, nib).value);
      var st1 := ReplaceAt(st, c, key, val, prev, b).1;
      var n := Branch(st[id].commit, Insert(cs, nib, b));
      PrefixStep(id.path, key);
      PrefixStep(id.path, k);
      ReplaceConfined(st, c, key, val, prev, b);
      AfterChildReads(st, st1, id, nib, b, n, k);
      if k[|id.path|] == nib {
        ReplaceReads(st, c, key, val, prev, b, k);
      } else {
        ReplaceReads(st, c, key, val, prev, b, key);
        assert Account(k)[|id.path|] != Account(key)[|id.path|];
      }
    }
  }

  lemma PrefixStep(p: seq<Byte>, k: Hash)
    requires p <= k && |p| < ACCOUNT_SIZE
    ensures p + [k[|p|]] <= k
  {
  }

  /** With the same leading bytes, agreeing from the level on is being the same account. */
  lemma SameAccount(p: seq<Byte>, a: Hash, k: Hash)
    requires p <= a && p <= k && |p| <= ACCOUNT_SIZE
    ensures SamePath(a, k, |p|) <==> Account(a) == Account(k)
  {
    assert Account(a) == p + a[|p|..ACCOUNT_SIZE];
    assert Account(k) == p + k[|p|..ACCOUNT_SIZE];
    assert Account(a)[|p|..] == a[|p|..ACCOUNT_SIZE];
    assert Account(k)[|p|..] == k[|p|..ACCOUNT_SIZE];
  }

  // ---------- create_account ----------

  /** A leaf as set_path leaves it: slot 0 holds the path. */
  function NewLeaf(key: Hash, b: BlockId): (n: Node)
    ensures n.Leaf?
  {
    Leaf(0, key[ACCOUNT_SIZE := 0], FreshSlots(key[ACCOUNT_SIZE := 0]), FreshBlks(b))
  }

  function FreshBlks(b: BlockId): (s: seq<BlockId>)
    ensures |s| == LEAF_ORDER
  {
    seq(LEAF_ORDER, i => if i == 0 then b else CANONICAL)
  }

  function FreshSlots(path: Hash): (s: seq<Hash>)
    ensures |s| == LEAF_ORDER && s[0] == path
  {
    seq(LEAF_ORDER, i => if i == 0 then path else ZERO_HASH)
  }

  /** Leaf::create_account: one branch per shared byte, and both leaves under the last. */
  function SplitAt(st: Store, path: seq<Byte>, b: BlockId, leaf: Node, key: Hash): (r: Store)
    requires leaf.Leaf?
    decreases ACCOUNT_SIZE - |path|
  {
    if |path| >= ACCOUNT_SIZE then st
    else
      var nib, old_ := key[|path|], leaf.path[|path|];
      if nib == old_ then
        SplitAt(st, path + [nib], b, leaf, key)[NodeId(path, b) := Branch(0, Insert([], nib, b))]
      else
        st[NodeId(path + [nib], b) := NewLeaf(key, b)]
          [NodeId(path + [old_], b) := leaf]
          [NodeId(path, b) := Branch(0, Insert(Insert([], nib, b), old_, b))]
  }

  function CreateAt(st: Store, id: NodeId, key: Hash, b: BlockId): (r: (Code, Store))
    decreases ACCOUNT_SIZE - |id.path|
  {
    if id !in st || |id.path| >= ACCOUNT_SIZE then (LoadNodeErr, st)
    else
      match st[id]
      case Leaf(_, path, _, _) =>
        if SamePath(path, key, |id.path|) then (AlreadyExists, st)
        else (Ok, SplitAt(st, id.path, b, st[id], key))
      case Branch(commit, cs) =>
        var nib := key[|id.path|];
        var (rc, st') :=
          match Next(cs, nib)
          case None => (Ok, st[Below(id, nib, b) := NewLeaf(key, b)])
          case Some(c) => CreateAt(st, Below(id, nib, c), key, b);
        (rc, if rc == Ok then st'[NodeId(id.path, b) := Branch(commit, Insert(cs, nib, b))] else st')
  }

  /** No stored account but the key's own starts with the 13 bytes a node id can hold of it. */
  ghost predicate Separate(st: Store, key: Hash) {
    forall id :: id in st && st[id].Leaf? ==>
      Account(st[id].path) == Account(key) || st[id].path[..PATH_SIZE] != key[..PATH_SIZE]
  }

  lemma {:induction false} CreateRefused(st: Store, id: NodeId, key: Hash, b: BlockId)
    ensures CreateAt(st, id, key, b).0 != Ok ==> CreateAt(st, id, key, b).1 == st
    decreases ACCOUNT_SIZE - |id.path|
  {
    if id in st && |id.path| < ACCOUNT_SIZE && st[id].Branch? {
      var nib := key[|id.path|];
      var next := Next(st[id].children, nib);
      hide Next;
      if next.Some? {
        CreateRefused(st, Below(id, nib, next.value), key, b);
      }
    }
  }

  /** Refused exactly when the account is there. */
  lemma {:induction false} CreateResult(st: Store, id: NodeId, key: Hash, b: BlockId)
    requires Good(st) && id in st
    ensures CreateAt(st, id, key, b).0 == if Lookup(st, id, key).Some? then AlreadyExists else Ok
    decreases ACCOUNT_SIZE - |id.path|
  {
    assert NodeOk(st, id, st[id]);
    if st[id].Branch? {
      var cs, nib := st[id].children, key[|id.path|];
      NextOk(st, id, cs, nib);
      var next := Next(cs, nib);
      hide Next, Good, NodeOk;
      if next.Some? {
        CreateResult(st, Below(id, nib, next.value), key, b);
      }
    }
  }

  lemma NewLeafOk(path: seq<Byte>, key: Hash, b: BlockId)
    requires 0 < |path| <= PATH_SIZE && path <= key
    ensures LeafOk(NodeId(path, b), NewLeaf(key, b))
    ensures Account(NewLeaf(key, b).path) == Account(key)
  {
    var p := key[ACCOUNT_SIZE := 0];
    assert path == key[..|path|] == p[..|path|];
    assert p[..ACCOUNT_SIZE] == key[..ACCOUNT_SIZE];
  }

  /** The two accounts of a split part within the bytes a node id holds. */
  ghost predicate PartWithin(path: seq<Byte>, leaf: Hash, key: Hash) {
    path <= leaf && path <= key && leaf[..PATH_SIZE] != key[..PATH_SIZE]
  }

  lemma PartDeeper(path: seq<Byte>, leaf: Hash, key: Hash)
    requires PartWithin(path, leaf, key) && |path| <= PATH_SIZE
    ensures |path| < PATH_SIZE
    ensures leaf[|path|] == key[|path|] ==> PartWithin(path + [key[|path|]], leaf, key)
  {
    FullPrefix(path, leaf);
    FullPrefix(path, key);
  }

  lemma FullPrefix(path: seq<Byte>, h: Hash)
    requires path <= h
    ensures |path| == PATH_SIZE ==> h[..PATH_SIZE] == path
  {
  }

  lemma {:induction false} SplitConfined(st: Store, path: seq<Byte>, b: BlockId, leaf: Node, key: Hash)
    requires Good(st) && leaf.Leaf? && PartWithin(path, leaf.path, key) && 0 < |path| <= PATH_SIZE
    requires LeafOk(NodeId(path, b), leaf)
    ensures var st' := SplitAt(st, path, b, leaf, key);
            Good(st') && Confined(st, st', path, b) && NodeId(path, b) in st'
    decreases ACCOUNT_SIZE - |path|
  {
    var nib, old_ := key[|path|], leaf.path[|path|];
    PartDeeper(path, leaf.path, key);
    if nib == old_ {
      var p := path + [nib];
      SplitConfined(st, p, b, leaf, key);
      var st1, n := SplitAt(st, p, b, leaf, key), Branch(0, Insert([], nib, b));
      SetBranch(st, st1, path, b, n, nib, nib);
    } else {
      var st1 := st[NodeId(path + [nib], b) := NewLeaf(key, b)];
      var st2, n := st1[NodeId(path + [old_], b) := leaf], Branch(0, Insert(Insert([], nib, b), old_, b));
      PrefixStep(path, key);
      PrefixStep(path, leaf.path);
      NewLeafOk(path + [nib], key, b);
      hide Good, LeafOk;
      GoodSet(st, st, NodeId(path + [nib], b), NewLeaf(key, b));
      assert LeafOk(NodeId(path + [old_], b), leaf) by { LeafDeeper(path, old_, b, leaf); }
      GoodSet(st, st1, NodeId(path + [old_], b), leaf);
      assert Confined(st, st2, path, b);
      SetBranch(st, st2, path, b, n, nib, old_);
    }
  }

  lemma LeafDeeper(path: seq<Byte>, nib: Byte, b: BlockId, leaf: Node)
    requires leaf.Leaf? && LeafOk(NodeId(path, b), leaf) && |path| < PATH_SIZE && nib == leaf.path[|path|]
    ensures LeafOk(NodeId(path + [nib], b), leaf)
  {
  }

  /** A fresh branch over one or two children of block b. */
  lemma SetBranch(st: Store, st1: Store, path: seq<Byte>, b: BlockId, n: Node, x: Byte, y: Byte)
    requires Good(st1) && |path| < PATH_SIZE && NodeId(path + [x], b) in st1 && NodeId(path + [y], b) in st1
    requires Confined(st, st1, path, b) || Confined(st, st1, path + [x], b)
    requires n == if x == y then Branch(0, Insert([], x, b)) else Branch(0, Insert(Insert([], x, b), y, b))
    ensures var st' := st1[NodeId(path, b) := n];
            Good(st') && Confined(st, st', path, b)
  {
    var self := NodeId(path, b);
    if Confined(st, st1, path + [x], b) {
      ConfinedWider(st, st1, path, path + [x], b);
    }
    ConfinedSet(st, st1, path, b, n);
    hide Good, Confined;
    InsertSorted([], x, b);
    InsertSorted(Insert([], x, b), y, b);
    var cs := n.children;
    hide Insert, Sorted;
    forall i | 0 <= i < |cs| ensures cs[i].sk != 0 && Below(self, cs[i].anchor, cs[i].blk) in st1[self := n] {
      if x != y {
        InsertMember(Insert([], x, b), y, b, cs[i]);
      }
      if cs[i] in Insert([], x, b) {
        InsertMember([], x, b, cs[i]);
      }
    }
    GoodSet(st1, st1, self, n);
  }

  /** A split keeps the old account and adds the new one, whatever bytes they share. */
  lemma {:induction false} SplitReads(st: Store, path: seq<Byte>, b: BlockId, leaf: Node, key: Hash, k: Hash)
    requires leaf.Leaf? && PartWithin(path, leaf.path, key) && 0 < |path| <= PATH_SIZE && path <= k
    ensures Lookup(SplitAt(st, path, b, leaf, key), NodeId(path, b), k)
         == if Account(k) == Account(key) then Some(FreshSlots(key[ACCOUNT_SIZE := 0]))
            else if Account(k) == Account(leaf.path) then Some(leaf.slots)
            else None
    decreases ACCOUNT_SIZE - |path|
  {
    var nib, old_, x := key[|path|], leaf.path[|path|], k[|path|];
    PartDeeper(path, leaf.path, key);
    PrefixStep(path, k);
    var self, st' := NodeId(path, b), SplitAt(st, path, b, leaf, key);
    if nib == old_ {
      var p := path + [nib];
      var st1, n := SplitAt(st, p, b, leaf, key), Branch(0, Insert([], nib, b));
      NextInsert([], nib, b, x);
      assert st' == st1[self := n];
      if x == nib {
        SplitReads(st, p, b, leaf, key, k);
        SetAgree(st1, path, b, n, nib);
        LookupAgree(st1, st', NodeId(p, b), k);
      } else {
        DifferentByte(k, key, |path|);
        DifferentByte(k, leaf.path, |path|);
      }
    } else {
      assert (path + [nib])[|path|] != (path + [old_])[|path|];
      InsertSorted([], nib, b);
      NextInsert([], nib, b, x);
      NextInsert(Insert([], nib, b), old_, b, x);
      SplitEnds(path, b, leaf, key, k, st', nib, old_);
    }
  }

  lemma DifferentByte(a: Hash, c: Hash, i: nat)
    requires i < ACCOUNT_SIZE && a[i] != c[i]
    ensures Account(a) != Account(c)
  {
    assert Account(a)[i] != Account(c)[i];
  }

  /** The branch where the two accounts part. */
  lemma SplitEnds(path: seq<Byte>, b: BlockId, leaf: Node, key: Hash, k: Hash, st: Store, nib: Byte, old_: Byte)
    requires leaf.Leaf? && 0 < |path| < PATH_SIZE && path <= k && path <= key && path <= leaf.path
    requires nib == key[|path|] && old_ == leaf.path[|path|] && nib != old_
    requires NodeId(path + [nib], b) in st && st[NodeId(path + [nib], b)] == NewLeaf(key, b)
    requires NodeId(path + [old_], b) in st && st[NodeId(path + [old_], b)] == leaf
    requires NodeId(path, b) in st && st[NodeId(path, b)].Branch?
    requires Next(st[NodeId(path, b)].children, k[|path|]) == if k[|path|] == nib || k[|path|] == old_ then Some(b)
             else None
    ensures Lookup(st, NodeId(path, b), k)
         == if Account(k) == Account(key) then Some(FreshSlots(key[ACCOUNT_SIZE := 0]))
            else if Account(k) == Account(leaf.path) then Some(leaf.slots)
            else None
  {
    hide Next;
    var x := k[|path|];
    PrefixStep(path, k);
    PrefixStep(path, key);
    PrefixStep(path, leaf.path);
    if x == nib {
      NewLeafOk(path + [nib], key, b);
      SameAccount(path + [nib], NewLeaf(key, b).path, k);
      DifferentByte(k, leaf.path, |path|);
    } else if x == old_ {
      SameAccount(path + [old_], leaf.path, k);
      DifferentByte(k, key, |path|);
    } else {
      DifferentByte(k, leaf.path, |path|);
      DifferentByte(k, key, |path|);
    }
  }

  lemma {:induction false} CreateConfined(st: Store, id: NodeId, key: Hash, b: BlockId)
    requires Good(st) && id in st && id.path <= key && Separate(st, key)
    requires CreateAt(st, id, key, b).0 == Ok
    ensures var st' := CreateAt(st, id, key, b).1;
            Good(st') && Confined(st, st', id.path, b) && NodeId(id.path, b) in st'
    decreases ACCOUNT_SIZE - |id.path|
  {
    assert NodeOk(st, id, st[id]);
    if st[id].Leaf? {
      SplitSeparate(st, id, key);
      SplitConfined(st, id.path, b, st[id], key);
    } else {
      var cs, nib := st[id].children, key[|id.path|];
      NextOk(st, id, cs, nib);
      PrefixStep(id.path, key);
      var n := Branch(st[id].commit, Insert(cs, nib, b));
      var next := Next(cs, nib);
      if next.Some? {
        var c := Below(id, nib, next.value);
        CreateConfined(st, c, key, b);
        AfterChild(st, CreateAt(st, c, key, b).1, id, nib, b, n);
      } else {
        var child := Below(id, nib, b);
        NewLeafOk(child.path, key, b);
        GoodSet(st, st, child, NewLeaf(key, b));
        ConfinedSet(st, st, child.path, b, NewLeaf(key, b));
        AfterChild(st, st[child := NewLeaf(key, b)], id, nib, b, n);
      }
    }
  }

  lemma SplitSeparate(st: Store, id: NodeId, key: Hash)
    requires Good(st) && id in st && st[id].Leaf? && id.path <= key && Separate(st, key)
    requires !SamePath(st[id].path, key, |id.path|)
    ensures PartWithin(id.path, st[id].path, key)
  {
    assert NodeOk(st, id, st[id]);
    SameAccount(id.path, st[id].path, key);
  }

  /** Main result for create_account: one more account with empty slots, and nothing else. */
  lemma {:induction false} CreateReads(st: Store, id: NodeId, key: Hash, b: BlockId, k: Hash)
    requires Good(st) && id in st && id.path <= key && id.path <= k && Separate(st, key)
    requires CreateAt(st, id, key, b).0 == Ok
    ensures Lookup(CreateAt(st, id, key, b).1, NodeId(id.path, b), k)
         == if Account(k) == Account(key) then Some(FreshSlots(key[ACCOUNT_SIZE := 0])) else Lookup(st, id, k)
    decreases ACCOUNT_SIZE - |id.path|
  {
    assert NodeOk(st, id, st[id]);
    if st[id].Leaf? {
      SplitSeparate(st, id, key);
      SplitReads(st, id.path, b, st[id], key, k);
      SameAccount(id.path, st[id].path, k);
    } else {
      var cs, nib, x := st[id].children, key[|id.path|], k[|id.path|];
      NextOk(st, id, cs, nib);
      PrefixStep(id.path, key);
      PrefixStep(id.path, k);
      var n := Branch(st[id].commit, Insert(cs, nib, b));
      var next := Next(cs, nib);
      var child := Below(id, nib, b);
      if x != nib {
        DifferentByte(k, key, |id.path|);
      }
      if next.Some? {
        var c := Below(id, nib, next.value);
        CreateConfined(st, c, key, b);
        AfterChildReads(st, CreateAt(st, c, key, b).1, id, nib, b, n, k);
        if x == nib {
          CreateReads(st, c, key, b, k);
        }
      } else {
        var st1 := st[child := NewLeaf(key, b)];
        ConfinedSet(st, st, child.path, b, NewLeaf(key, b));
        AfterChildReads(st, st1, id, nib, b, n, k);
        NewLeafOk(child.path, key, b);
        if x == nib {
          SameAccount(child.path, NewLeaf(key, b).path, k);
        }
      }
    }
  }
}

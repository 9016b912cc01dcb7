/** What create_account and prune under b do to a block that was built on b, and an input on which
    isolation fails for each operation. */
module SharedChanges {
  import opened Options
  import opened TrieTypes
  import opened Children
  import opened Trie
  import opened TrieOps
  import opened Ownership
  import opened Sharing
  import opened Pruning
  import opened Justifying
  import opened LedgerSpec
  import opened LedgerRuns

  // ---------- create_account ----------

  /** One step of the descent. */
  lemma CreateStep(st: Store, id: NodeId, key: Hash, b: BlockId, c: BlockId)
    requires id in st && |id.path| < ACCOUNT_SIZE && st[id].Branch? && Next(st[id].children, key[|id.path|]) == Some(c)
    ensures var nib := key[|id.path|];
            var r := CreateAt(st, Below(id, nib, c), key, b);
            var n := Branch(st[id].commit, Insert(st[id].children, nib, b));
            CreateAt(st, id, key, b) == (r.0, if r.0 == Ok then r.1[NodeId(id.path, b) := n] else r.1)
  {
    hide Next, Insert, NewLeaf;
  }

  /** A node that was there changes only if it is b's and on the way to the key. */
  lemma {:induction false} CreateOnPath(st: Store, id: NodeId, key: Hash, b: BlockId, i: NodeId)
    requires Good(st) && id in st && id.path <= key && Separate(st, key) && CreateAt(st, id, key, b).0 == Ok
    requires OwnedBelow(st, id.path, b) && OnOwnPath(st, id, b)
    requires i in st && !(i.blk == b && i.path <= key)
    ensures SameAt(st, CreateAt(st, id, key, b).1, i)
    decreases ACCOUNT_SIZE - |id.path|
  {
    assert NodeOk(st, id, st[id]);
    if st[id].Leaf? {
      CreateConfined(st, id, key, b);
      if i.blk == b && id.path < i.path {
        assert i == NodeId(i.path, b);
        NothingBelow(st, id, b, i.path);
      }
    } else {
      var cs, nib := st[id].children, key[|id.path|];
      PrefixStep(id.path, key);
      NextOk(st, id, cs, nib);
      var next := Next(cs, nib);
      if next.Some? {
        CreateStep(st, id, key, b, next.value);
        OwnPathStep(st, id, nib, b);
        hide Good, OwnedBelow, OnOwnPath, CreateAt, Next, Separate;
        OwnedDeeper(st, id.path, id.path + [nib], b);
        CreateOnPath(st, Below(id, nib, next.value), key, b, i);
      }
    }
  }

  /** The new store, read from any node of b on the way to the key. */
  lemma {:induction false} CreatedReads(st: Store, id: NodeId, key: Hash, b: BlockId, p: seq<Byte>, k: Hash)
    requires Good(st) && id in st && id.blk == b && OwnedBelow(st, id.path, b)
    requires id.path <= key && Separate(st, key) && CreateAt(st, id, key, b).0 == Ok
    requires id.path <= p && p <= key && p <= k && NodeId(p, b) in st && |p| <= PATH_SIZE
    ensures Lookup(CreateAt(st, id, key, b).1, NodeId(p, b), k)
         == if Account(k) == Account(key) then Some(FreshSlots(key[ACCOUNT_SIZE := 0])) else Lookup(st, NodeId(p, b), k)
    decreases ACCOUNT_SIZE - |id.path|
  {
    hide Good, OwnedBelow, Lookup, CreateAt, Next, Insert, Account, Separate, FreshSlots;
    PrefixTrans(id.path, p, k);
    if p == id.path {
      CreateReads(st, id, key, b, k);
    } else {
      OwnedChain(st, id.path, p, b);
      var nib := key[|id.path|];
      assert p[|id.path|] == nib;
      CreateStep(st, id, key, b, b);
      var c := Below(id, nib, b);
      var st1, n := CreateAt(st, c, key, b).1, Branch(st[id].commit, Insert(st[id].children, nib, b));
      OwnedDeeper(st, id.path, c.path, b);
      assert c.path <= p && c.path <= key;
      CreatedReads(st, c, key, b, p, k);
      SetAgree(st1, id.path, b, n, nib);
      AgreeDeeper(st1, st1[NodeId(id.path, b) := n], c.path, p);
      LookupAgree(st1, st1[NodeId(id.path, b) := n], NodeId(p, b), k);
    }
  }

  /** Exact effect of a create under b on every other reading. */
  lemma {:induction false} CreateSeenFrom(st: Store, id: NodeId, key: Hash, b: BlockId, k: Hash)
    requires Good(st) && Owned(st, b) && RootId(b) in st && Separate(st, key)
    requires CreateAt(st, RootId(b), key, b).0 == Ok
    requires id in st && id.path <= k
    ensures Lookup(CreateAt(st, RootId(b), key, b).1, id, k)
         == if Account(k) == Account(key) && Visits(st, id, key, b) then Some(FreshSlots(key[ACCOUNT_SIZE := 0]))
            else Lookup(st, id, k)
    decreases ACCOUNT_SIZE - |id.path|
  {
    var st' := CreateAt(st, RootId(b), key, b).1;
    assert NodeOk(st, id, st[id]);
    if id.blk == b && id.path <= key {
      CreatedReads(st, RootId(b), key, b, id.path, k);
    } else {
      CreateOnPath(st, RootId(b), key, b, id);
      if !(id.path <= key) {
        OffPath(id.path, key, k);
      }
      if st[id].Branch? {
        var nib := k[|id.path|];
        NextOk(st, id, st[id].children, nib);
        var next := Next(st[id].children, nib);
        PrefixStep(id.path, k);
        if nib != key[|id.path|] {
          DifferentByte(k, key, |id.path|);
        }
        LookupStep(st, id, k);
        LookupStep(st', id, k);
        hide Next, Good, Owned, NodeOk, CreateAt, Separate, Lookup, FreshSlots;
        if next.Some? {
          CreateSeenFrom(st, Below(id, nib, next.value), key, b, k);
        }
      }
    }
  }

  /** Isolation holds for a create exactly when the other block does not reach the account's place through b. */
  lemma CreateIsolatedIff(st: Store, c: BlockId, key: Hash, b: BlockId)
    requires Good(st) && Owned(st, b) && RootId(b) in st && RootId(c) in st && Separate(st, key)
    requires CreateAt(st, RootId(b), key, b).0 == Ok
    ensures var st' := CreateAt(st, RootId(b), key, b).1;
            SameReadings(st, st', RootId(c)) <==> !Visits(st, RootId(c), key, b)
  {
    var st' := CreateAt(st, RootId(b), key, b).1;
    if Visits(st, RootId(c), key, b) {
      CreateSeenFrom(st, RootId(c), key, b, key);
      SeenBefore(st, RootId(c), key, b);
      CreateResult(st, RootId(b), key, b);
    } else {
      forall k: Hash ensures Lookup(st', RootId(c), k) == Lookup(st, RootId(c), k) {
        CreateSeenFrom(st, RootId(c), key, b, k);
      }
    }
  }

  // ---------- prune ----------

  /** Exact effect of pruning b on every other reading: what was reached through b is gone. */
  lemma {:induction false} PruneSeenFrom(st: Store, id: NodeId, b: BlockId, k: Hash)
    requires Good(st) && Owned(st, b) && RootId(b) in st && id in st
    ensures Lookup(PruneAt(st, RootId(b), b), id, k) == if Visits(st, id, k, b) then None else Lookup(st, id, k)
    decreases ACCOUNT_SIZE - |id.path|
  {
    var st' := PruneAt(st, RootId(b), b);
    assert NodeOk(st, id, st[id]) && GoodBelow(st, []);
    PruneCorrect(st, RootId(b), b);
    assert [] <= id.path;
    if id.blk != b {
      assert SameAt(st, st', id);
      if st[id].Branch? {
        var nib := k[|id.path|];
        NextOk(st, id, st[id].children, nib);
        var next := Next(st[id].children, nib);
        LookupStep(st, id, k);
        LookupStep(st', id, k);
        hide Next, Good, Owned, NodeOk, PruneAt, Lookup, Pruned, GoodBelow;
        if next.Some? {
          PruneSeenFrom(st, Below(id, nib, next.value), b, k);
        }
      }
    }
  }

  /** Where b is met there is an account. */
  lemma {:induction false} ReachedAccount(st: Store, id: NodeId, b: BlockId, k: Hash) returns (a: Hash)
    requires Good(st) && id in st && id.path <= k && Visits(st, id, k, b) && id != RootId(b)
    ensures id.path <= a && Visits(st, id, a, b) && Lookup(st, id, a).Some?
    decreases ACCOUNT_SIZE - |id.path|
  {
    assert NodeOk(st, id, st[id]);
    if id.blk == b {
      a := SomeAccount(st, id);
    } else {
      var nib := k[|id.path|];
      NextOk(st, id, st[id].children, nib);
      PrefixStep(id.path, k);
      var child := Below(id, nib, Next(st[id].children, nib).value);
      a := ReachedAccount(st, child, b, k);
      PrefixByte(id.path, nib, a);
      LookupStep(st, id, a);
    }
  }

  /** Some descent from the node meets b. */
  ghost predicate Meets(st: Store, id: NodeId, b: BlockId) {
    exists k: Hash :: Visits(st, id, k, b)
  }

  /** Pruning b leaves another block's readings alone exactly when that block reaches nothing through b. */
  lemma PruneIsolatedIff(st: Store, c: BlockId, b: BlockId)
    requires Good(st) && Owned(st, b) && RootId(b) in st && RootId(c) in st && c != b
    ensures SameReadings(st, PruneAt(st, RootId(b), b), RootId(c)) <==> !Meets(st, RootId(c), b)
  {
    var st' := PruneAt(st, RootId(b), b);
    forall k: Hash ensures Lookup(st', RootId(c), k) == if Visits(st, RootId(c), k, b) then None
        else Lookup(st, RootId(c), k) {
      PruneSeenFrom(st, RootId(c), b, k);
    }
    if Meets(st, RootId(c), b) {
      var k: Hash :| Visits(st, RootId(c), k, b);
      assert RootId(c) != RootId(b) && [] <= k;
      var a := ReachedAccount(st, RootId(c), b, k);
      assert Lookup(st', RootId(c), a) != Lookup(st, RootId(c), a);
    }
  }

  // ---------- a run after which isolation fails ----------

  function ExampleHash(first: Byte, second: Byte, last: Byte): (h: Hash) {
    [first, second] + ZERO_HASH[2..31] + [last]
  }

  /** An account under a first block; a second block on top of it, whose only write is refused. */
  function ExampleOps(): seq<Op> {
    var h1, h2 := ExampleHash(1, 0, 0), ExampleHash(2, 0, 0);
    [Create(ExampleHash(7, 0, 0), h1), Write(ExampleHash(8, 0, 1), ZERO_HASH, None, h2, Some(h1))]
  }

  function ExampleStore(): (st: Store) {
    map[RootId(0) := Branch(0, []),
        RootId(1) := Branch(0, [Child(7, 7, 1, 1)]),
        RootId(2) := Branch(0, [Child(7, 7, 1, 1)]),
        NodeId([7], 1) := NewLeaf(ExampleHash(7, 0, 0), 1)]
  }

  function ExampleNames(): Names {
    Names(map[ExampleHash(1, 0, 0) := 1, ExampleHash(2, 0, 0) := 2], 3)
  }

  lemma FirstStep()
    ensures var s := Step(START, ExampleOps()[0]);
            && s.0 == Ok && s.1.names == Names(map[ExampleHash(1, 0, 0) := 1], 2)
            && s.1.store == ExampleStore() - {RootId(2)}
  {
    var key, h1 := ExampleHash(7, 0, 0), ExampleHash(1, 0, 0);
    var st := GetRoot(map[], 1, CANONICAL);
    assert key[ACCOUNT_SIZE := 0] == key && key[0] == 7;
    assert Next([], 7) == None && [] + [7] == [7];
    var leaf := NewLeaf(key, 1);
    hide NewLeaf;
    assert CreateAt(st, RootId(1), key, 1) ==
           (Ok, st[NodeId([7], 1) := leaf][RootId(1) := Branch(0, [Child(7, 7, 1, 1)])]);
  }

  lemma SecondStep(s: State)
    requires s.names == Names(map[ExampleHash(1, 0, 0) := 1], 2) && s.store == ExampleStore() - {RootId(2)}
    ensures Step(s, ExampleOps()[1]) == (NotExist, State(ExampleNames(), ExampleStore()))
  {
    var key, h1, h2 := ExampleHash(8, 0, 1), ExampleHash(1, 0, 0), ExampleHash(2, 0, 0);
    assert h1[0] != h2[0] && key[0] == 8;
    var cs := [Child(7, 7, 1, 1)];
    assert cs[..1] == cs && cs[1..] == [];
    assert Next(cs, 8) == None;
    assert GetRoot(s.store, 2, 1) == ExampleStore();
  }

  /** The store is reached from the empty ledger. */
  lemma ExampleReached()
    ensures Run(START, ExampleOps()) == Some(([Ok, NotExist], State(ExampleNames(), ExampleStore())))
  {
    FirstStep();
    var s := Step(START, ExampleOps()[0]).1;
    SecondStep(s);
    RunTwo(START, ExampleOps());
  }

  lemma RunTwo(s: State, ops: seq<Op>)
    requires |ops| == 2 && s.names.next < 65536 && Step(s, ops[0]).1.names.next < 65536
    ensures var (rc, s1) := Step(s, ops[0]);
            var (rc2, s2) := Step(s1, ops[1]);
            Run(s, ops) == Some(([rc, rc2], s2))
  {
    var s1 := Step(s, ops[0]).1;
    var s2 := Step(s1, ops[1]).1;
    var rest := ops[1..];
    assert rest[0] == ops[1] && rest[1..] == [] && rest != [];
    assert Run(s2, []) == Some(([], s2));
    assert Run(s1, rest) == Some(([Step(s1, ops[1]).0] + [], s2)) by {
      hide Step;
    }
    assert [Step(s, ops[0]).0] + ([Step(s1, ops[1]).0] + []) == [Step(s, ops[0]).0, Step(s1, ops[1]).0];
    hide Step;
  }

  lemma ExampleSound()
    ensures Good(ExampleStore()) && Owned(ExampleStore(), 1)
  {
    var st, cs := ExampleStore(), [Child(7, 7, 1, 1)];
    assert Entry(cs, 7) == Some(cs[0]) && Next(cs, 7) == Some(1);
    assert [] + [7] == [7] && [7][..0] == [];
    NewLeafOk([7], ExampleHash(7, 0, 0), 1);
    hide NewLeaf;
    forall id | id in st ensures NodeOk(st, id, st[id]) {
    }
    forall id | id in st && id.blk == 1 && [] < id.path ensures OwnedAt(st, id.path, 1) {
    }
  }

  lemma ExampleVisits(key: Hash)
    requires key[0] == 7
    ensures Visits(ExampleStore(), RootId(2), key, 1)
  {
    var cs := [Child(7, 7, 1, 1)];
    assert Entry(cs, 7) == Some(cs[0]) && Next(cs, 7) == Some(1);
    assert [] + [7] == [7];
  }

  /** There a put, a create and a prune under block 1 all change what block 2 reads. */
  lemma NotIsolated()
    ensures var st, key, val := ExampleStore(), ExampleHash(7, 0, 3), ExampleHash(9, 9, 9);
            && Run(START, ExampleOps()).Some? && Run(START, ExampleOps()).value.1.store == st
            && ReplaceAt(st, RootId(1), key, val, None, 1).0 == Ok
            && !SameReadings(st, ReplaceAt(st, RootId(1), key, val, None, 1).1, RootId(2))
    ensures var st, key := ExampleStore(), ExampleHash(7, 5, 0);
            && CreateAt(st, RootId(1), key, 1).0 == Ok
            && !SameReadings(st, CreateAt(st, RootId(1), key, 1).1, RootId(2))
    ensures var st := ExampleStore();
            !SameReadings(st, PruneAt(st, RootId(1), 1), RootId(2))
  {
    ExampleReached();
    ExampleSound();
    ExamplePut();
    ExampleCreate();
    ExamplePrune();
    hide *;
  }

  lemma ExamplePrune()
    ensures var st := ExampleStore();
            !SameReadings(st, PruneAt(st, RootId(1), 1), RootId(2))
  {
    var key := ExampleHash(7, 0, 3);
    ExampleSound();
    ExampleVisits(key);
    assert RootId(1) in ExampleStore() && RootId(2) in ExampleStore();
    hide ExampleStore, ExampleHash, Good, Owned, Lookup, PruneAt, Visits;
    PruneIsolatedIff(ExampleStore(), 2, 1);
  }

  lemma ExampleReading(key: Hash)
    requires key[0] == 7
    ensures var leaf := NewLeaf(ExampleHash(7, 0, 0), 1);
            Lookup(ExampleStore(), RootId(1), key) == if SamePath(leaf.path, key, 1) then Some(leaf.slots) else None
  {
    var cs := [Child(7, 7, 1, 1)];
    assert Entry(cs, 7) == Some(cs[0]) && Next(cs, 7) == Some(1);
    assert [] + [7] == [7];
    hide NewLeaf;
    LookupStep(ExampleStore(), RootId(1), key);
  }

  lemma ExamplePut()
    ensures var st, key, val := ExampleStore(), ExampleHash(7, 0, 3), ExampleHash(9, 9, 9);
            && ReplaceAt(st, RootId(1), key, val, None, 1).0 == Ok
            && !SameReadings(st, ReplaceAt(st, RootId(1), key, val, None, 1).1, RootId(2))
  {
    var st, key, val := ExampleStore(), ExampleHash(7, 0, 3), ExampleHash(9, 9, 9);
    var leaf := NewLeaf(ExampleHash(7, 0, 0), 1);
    assert leaf.path[1..ACCOUNT_SIZE] == key[1..ACCOUNT_SIZE] && key[0] == 7 && key[ACCOUNT_SIZE] == 3;
    assert leaf.slots[3] == ZERO_HASH && val[0] == 9 && ZERO_HASH[0] == 0 && |leaf.slots| == LEAF_ORDER;
    ExampleReading(key);
    ExampleSound();
    ExampleVisits(key);
    hide NewLeaf, ExampleStore, ExampleHash, Good, Owned, Lookup, ReplaceAt, Visits;
    ReplaceResult(st, RootId(1), key, val, None, 1);
    IsolatedIff(st, 2, key, val, None, 1);
  }

  lemma ExampleParts()
    ensures var path, key := NewLeaf(ExampleHash(7, 0, 0), 1).path, ExampleHash(7, 5, 0);
            key[0] == 7 && !SamePath(path, key, 1) && path[..PATH_SIZE] != key[..PATH_SIZE]
  {
    var path, key := NewLeaf(ExampleHash(7, 0, 0), 1).path, ExampleHash(7, 5, 0);
    assert path == ExampleHash(7, 0, 0)[ACCOUNT_SIZE := 0];
    assert path[1] == 0 && key[1] == 5;
    assert path[1..ACCOUNT_SIZE][0] == path[1] && key[1..ACCOUNT_SIZE][0] == key[1];
    assert path[..PATH_SIZE][1] == path[1] && key[..PATH_SIZE][1] == key[1];
  }

  lemma ExampleCreate()
    ensures var st, key := ExampleStore(), ExampleHash(7, 5, 0);
            && CreateAt(st, RootId(1), key, 1).0 == Ok
            && !SameReadings(st, CreateAt(st, RootId(1), key, 1).1, RootId(2))
  {
    var st, key := ExampleStore(), ExampleHash(7, 5, 0);
    var leaf := NewLeaf(ExampleHash(7, 0, 0), 1);
    ExampleParts();
    assert Separate(st, key);
    ExampleReading(key);
    ExampleSound();
    ExampleVisits(key);
    hide NewLeaf, ExampleStore, ExampleHash, Good, Owned, Lookup, CreateAt, Visits, Separate;
    CreateResult(st, RootId(1), key, 1);
    CreateIsolatedIff(st, 2, key, 1);
  }
}

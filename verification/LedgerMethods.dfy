/** The ledger as it runs, over the allocator (ledger.cpp:48-264, processing.cpp:113-141). Every
    operation is a step of the ledger over the flat store, and so a step of the map of views. */
module LedgerMethods {
  import opened Options
  import opened TrieTypes
  import opened Trie
  import opened TrieOps
  import opened Pruning
  import opened Justifying
  import opened LedgerSpec
  import opened LedgerRuns
  import opened Allocator
  import opened Lru
  import opened TrieMethods
  import opened CreateMethods
  import opened BlockMethods

  /** Nodes one put, replace or create_account touches at most. */
  const TOUCHED: nat := ACCOUNT_SIZE + 4

  lemma TouchedIs()
    ensures TOUCHED == ACCOUNT_SIZE + 4
  {
  }

  /** The key of an account, which names no slot. */
  function Slotless(key: Hash): (r: Hash) {
    key[ACCOUNT_SIZE := 0]
  }

  lemma OpenSmall(st: Store, b: BlockId, prev: BlockId)
    requires Small(st)
    ensures Small(GetRoot(st, b, prev))
  {
  }

  /** What the store is when a write starts at a root. */
  lemma OpenForWrite(st: Store, b: BlockId, prev: BlockId)
    requires Good(st) && Small(st)
    ensures Good(GetRoot(st, b, prev)) && Small(GetRoot(st, b, prev)) && RootId(b).path == []
  {
    OpenSmall(st, b, prev);
    OpenGood(st, b, prev);
  }

  lemma OpenForCreate(st: Store, b: BlockId, key: Hash)
    requires Good(st) && Small(st) && Separate(st, key)
    ensures var st' := GetRoot(st, b, CANONICAL);
            Good(st') && Small(st') && Separate(st', Slotless(key)) && RootId(b).path == []
  {
    OpenForWrite(st, b, CANONICAL);
    SeparateOpened(st, b, key);
  }

  /** What the store is when justify or prune starts at a root. */
  lemma OpenShort(st: Store, b: BlockId)
    requires Good(st)
    ensures Short(GetRoot(st, b, CANONICAL))
  {
    OpenGood(st, b, CANONICAL);
    var st' := GetRoot(st, b, CANONICAL);
    hide GetRoot;
    forall id | id in st'
      ensures |id.path| <= PATH_SIZE
    {
      assert NodeOk(st', id, st'[id]);
    }
  }

  lemma OpenReady(st: Store, b: BlockId)
    requires Good(st) && Pending(st, [], b) && b != CANONICAL
    ensures Ready(GetRoot(st, b, CANONICAL), b)
  {
    OpenShort(st, b);
    OpenPending(st, b);
    var st' := GetRoot(st, b, CANONICAL);
    hide GetRoot, Short;
    forall id | id in st' && id.blk == b
      ensures OnlyTwo(st'[id], b)
    {
      assert [] <= id.path;
    }
  }

  /** The start, with the canonical root that every first call makes. */
  const EMPTY_LEDGER: State := State(START.names, map[RootId(CANONICAL) := Branch(0, [])])

  class Ledger {
    const alloc: NodeAllocator
    var ids: map<Hash, BlockId>
    var current: nat

    ghost function State(): LedgerSpec.State
      reads this, alloc, alloc.cache
    {
      LedgerSpec.State(Names(ids, current), alloc.Flat())
    }

    /** A new ledger, with an empty database. */
    constructor (capacity: nat)
      ensures State() == EMPTY_LEDGER && alloc.Stable() && alloc.cache.capacity == capacity && fresh(alloc) &&
              fresh(alloc.cache)
    {
      alloc := new NodeAllocator(capacity, map[]);
      ids, current := map[], 1;
    }

    /** get_block_id with creation. */
    method CreateBlockId(block: Hash) returns (b: BlockId)
      requires current < 65535
      modifies this`ids, this`current
      ensures Names(ids, current) == Named(old(Names(ids, current)), block) && b == IdOf(Names(ids, current), block)
    {
      if block in ids {
        return ids[block];
      }
      b := current;
      current := current + 1;
      ids := ids[block := b];
    }

    /** get_block_id without creation. */
    method GetBlockId(block: Option<Hash>) returns (b: BlockId)
      ensures b == PrevOf(Names(ids, current), block)
    {
      if block.Some? && block.value in ids {
        return ids[block.value];
      }
      return CANONICAL;
    }

    /** get_root */
    method OpenRoot(b: BlockId, prev: BlockId, ghost room: nat) returns (ghost hot: set<NodeId>)
      requires alloc.Calm({}, room) && room >= 2 && b != CANONICAL
      modifies alloc, alloc.cache
      ensures alloc.Flat() == GetRoot(old(alloc.Flat()), b, prev)
      ensures alloc.Calm(hot, room - 2) && RootId(b) in hot
    {
      hide CalmAt, Contents, KeysOf, Linked, Recoded, Leaves;
      var root, _ := alloc.LoadNode(RootId(b), {}, room);
      if root.Some? {
        CalmLess(alloc, {RootId(b)}, room - 1, room - 2);
        return {RootId(b)};
      }
      hot := CopyRoot(b, prev, room);
    }

    method CopyRoot(b: BlockId, prev: BlockId, ghost room: nat) returns (ghost hot: set<NodeId>)
      requires alloc.Calm({}, room) && room >= 2 && RootId(b) !in alloc.Flat() && b != CANONICAL
      modifies alloc, alloc.cache
      ensures alloc.Flat() == GetRoot(old(alloc.Flat()), b, prev)
      ensures alloc.Calm(hot, room - 2) && RootId(b) in hot
    {
      RootCopied(alloc.Flat(), b, prev);
      assert RootId(prev).blk == prev && (prev == CANONICAL ==> RootId(prev) in alloc.Flat());
      hide *;
      var n := Branch(0, []);
      var prevRoot, _ := alloc.LoadNode(RootId(prev), {}, room);
      if prevRoot.None? {
        var _ := alloc.CacheNode(RootId(prev), n, {}, room);
      } else {
        n := prevRoot.value;
      }
      var _ := alloc.CacheNode(RootId(b), Recoded(n), {} + {RootId(prev)}, room - 1);
      return {} + {RootId(prev)} + {RootId(b)};
    }

    /** The rest of put and replace, once the blocks have ids. */
    method ReplaceUnder(key: Hash, val: Hash, prevVal: Option<Hash>, b: BlockId, prev: BlockId, ghost room: nat)
      returns (rc: Code)
      requires alloc.Calm({}, room) && room >= TOUCHED && Good(alloc.Flat()) && Small(alloc.Flat()) && b != CANONICAL
      modifies alloc, alloc.cache
      ensures alloc.Stable()
      ensures (rc, alloc.Flat()) == ReplaceAt(GetRoot(old(alloc.Flat()), b, prev), RootId(b), key, val, prevVal, b)
    {
      hide *;
      TouchedIs();
      RootFacts(b);
      OpenForWrite(alloc.Flat(), b, prev);
      ghost var hot := OpenRoot(b, prev, room);
      ghost var left;
      rc, hot, left := TrieMethods.Replace(alloc, RootId(b), key, val, prevVal, b, hot, room - 2);
      CalmStable(alloc, hot, left);
    }

    /** put and replace, after the key was hashed. */
    method Replace(key: Hash, val: Hash, prevVal: Option<Hash>, block: Hash, prevBlock: Option<Hash>, ghost room: nat)
      returns (rc: Code)
      requires alloc.Calm({}, room) && room >= TOUCHED && Good(alloc.Flat()) && Small(alloc.Flat()) && current < 65535
      requires NamesOk(Names(ids, current))
      modifies this, alloc, alloc.cache
      ensures alloc.Stable()
      ensures (rc, State()) == Step(old(State()), Op.Write(key, val, prevVal, block, prevBlock))
    {
      hide *;
      StateIs(this);
      WriteParts(Names(ids, current), alloc.Flat(), key, val, prevVal, block, prevBlock);
      var b := CreateBlockId(block);
      var prev := GetBlockId(prevBlock);
      rc := ReplaceUnder(key, val, prevVal, b, prev, room);
      StateIs(this);
    }

    method CreateUnder(key: Hash, b: BlockId, ghost room: nat) returns (rc: Code)
      requires alloc.Calm({}, room) && room >= TOUCHED && Good(alloc.Flat()) && Small(alloc.Flat()) &&
               Separate(alloc.Flat(), key) && b != CANONICAL
      modifies alloc, alloc.cache
      ensures alloc.Stable()
      ensures (rc, alloc.Flat()) == CreateAt(GetRoot(old(alloc.Flat()), b, CANONICAL), RootId(b), Slotless(key), b)
    {
      hide *;
      TouchedIs();
      RootFacts(b);
      var account := Slotless(key);
      OpenForCreate(alloc.Flat(), b, key);
      ghost var hot := OpenRoot(b, CANONICAL, room);
      ghost var left;
      rc, hot, left := CreateMethods.CreateAccount(alloc, RootId(b), account, b, hot, room - 2);
      CalmStable(alloc, hot, left);
    }

    /** create_account, after the key was hashed; the previous block is not used. */
    method CreateAccount(key: Hash, block: Hash, ghost room: nat) returns (rc: Code)
      requires alloc.Calm({}, room) && room >= TOUCHED && Good(alloc.Flat()) && Small(alloc.Flat()) && current < 65535
      requires NamesOk(Names(ids, current))
      requires Separate(alloc.Flat(), key)
      modifies this, alloc, alloc.cache
      ensures alloc.Stable()
      ensures (rc, State()) == Step(old(State()), Create(key, block))
    {
      hide *;
      StateIs(this);
      CreateParts(Names(ids, current), alloc.Flat(), key, block);
      var b := CreateBlockId(block);
      rc := CreateUnder(key, b, room);
      StateIs(this);
    }

    method JustifyUnder(b: BlockId, ghost room: nat) returns (rc: Code)
      requires alloc.Calm({}, room) && Good(alloc.Flat()) && b != CANONICAL && Pending(alloc.Flat(), [], b)
      requires room >= |NodesOf(alloc.Flat(), b)| + PATH_SIZE + 3
      modifies alloc, alloc.cache
      ensures alloc.Stable()
      ensures (rc, alloc.Flat()) == JustifyAt(GetRoot(old(alloc.Flat()), b, CANONICAL), RootId(b), b)
    {
      hide *;
      RootFacts(b);
      OpenReady(alloc.Flat(), b);
      OpenNodes(alloc.Flat(), b);
      ghost var hot := OpenRoot(b, CANONICAL, room);
      ghost var left;
      rc, hot, left := BlockMethods.Justify(alloc, RootId(b), b, hot, room - 2);
      CalmStable(alloc, hot, left);
    }

    /** justify_block */
    method JustifyBlock(block: Hash, ghost room: nat) returns (rc: Code)
      requires alloc.Calm({}, room) && Good(alloc.Flat()) && current < 65535
      requires NamesOk(Names(ids, current))
      requires var b := IdOf(Names(ids, current), block);
               room >= |NodesOf(alloc.Flat(), b)| + PATH_SIZE + 3 && (b != CANONICAL ==> Pending(alloc.Flat(), [], b))
      modifies alloc, alloc.cache
      ensures alloc.Stable()
      ensures (rc, State()) == Step(old(State()), Op.Justify(block))
    {
      hide *;
      StateIs(this);
      JustifyParts(Names(ids, current), alloc.Flat(), block);
      var b := GetBlockId(Some(block));
      if b == CANONICAL {
        CalmStable(alloc, {}, room);
        return BlockNotExist;
      }
      rc := JustifyUnder(b, room);
      StateIs(this);
      if rc == Deleted {
        rc := Ok;
      }
    }

    method PruneUnder(b: BlockId, ghost room: nat)
      requires alloc.Calm({}, room) && Good(alloc.Flat()) && b != CANONICAL && room >= PATH_SIZE + 3
      modifies alloc, alloc.cache
      ensures alloc.Stable() && alloc.Flat() == PruneAt(GetRoot(old(alloc.Flat()), b, CANONICAL), RootId(b), b)
    {
      hide *;
      RootFacts(b);
      OpenShort(alloc.Flat(), b);
      ghost var hot := OpenRoot(b, CANONICAL, room);
      hot := BlockMethods.Prune(alloc, RootId(b), b, hot, room - 2);
      CalmStable(alloc, hot, room - 1);
    }

    /** The hash goes first, then the nodes. */
    method DropBlock(block: Hash, b: BlockId, ghost room: nat)
      requires alloc.Calm({}, room) && Good(alloc.Flat()) && b != CANONICAL && room >= PATH_SIZE + 3
      modifies this`ids, alloc, alloc.cache
      ensures alloc.Stable() && ids == old(ids) - {block}
      ensures alloc.Flat() == PruneAt(GetRoot(old(alloc.Flat()), b, CANONICAL), RootId(b), b)
    {
      hide *;
      ids := ids - {block};
      PruneUnder(b, room);
    }

    /** prune_block */
    method PruneBlock(block: Hash, ghost room: nat) returns (rc: Code)
      requires alloc.Calm({}, room) && Good(alloc.Flat()) && room >= PATH_SIZE + 3 && current < 65535
      modifies this, alloc, alloc.cache
      ensures alloc.Stable()
      ensures (rc, State()) == Step(old(State()), Op.Prune(block))
    {
      hide *;
      StateIs(this);
      PruneParts(Names(ids, current), alloc.Flat(), block);
      var b := GetBlockId(Some(block));
      if b == CANONICAL {
        CalmStable(alloc, {}, room);
        return BlockNotExist;
      }
      DropBlock(block, b, room);
      StateIs(this);
      return Ok;
    }

    /** Any of the operations: over cache and database the ledger does what the map of views does. */
    method Perform(op: Op, ghost room: nat, ghost sp: Spec) returns (rc: Code)
      requires alloc.Calm({}, room) && room >= TOUCHED && Small(alloc.Flat())
      requires op.Justify? ==> room >= |NodesOf(alloc.Flat(), IdOf(Names(ids, current), op.block))| + PATH_SIZE + 3
      requires Refines(State(), sp) && Allowed(State(), op)
      modifies this, alloc, alloc.cache
      ensures alloc.Stable() && (rc, State()) == Step(old(State()), op)
      ensures rc == SpecStep(sp, op).0 && Refines(State(), SpecStep(sp, op).1)
    {
      StepRefines(State(), sp, op);
      MayPerform(State(), sp, op);
      assert TOUCHED >= PATH_SIZE + 3;
      hide *;
      match op
      case Create(key, block) => rc := CreateAccount(key, block, room);
      case Write(key, val, prevVal, block, prevBlock) => rc := Replace(key, val, prevVal, block, prevBlock, room);
      case Justify(block) => rc := JustifyBlock(block, room);
      case Prune(block) => rc := PruneBlock(block, room);
    }
  }

  lemma MayPerform(s: State, sp: Spec, op: Op)
    requires Refines(s, sp) && Allowed(s, op)
    ensures Good(s.store) && s.names.next < 65535 && NamesOk(s.names)
    ensures op.Create? ==> Separate(s.store, op.key)
    ensures op.Justify? && IdOf(s.names, op.block) != CANONICAL ==> Pending(s.store, [], IdOf(s.names, op.block))
  {
  }

  // ---------- the steps, spelled out ----------

  lemma RootCopied(st: Store, b: BlockId, prev: BlockId)
    requires RootId(b) !in st
    ensures RootId(b).blk == b
    ensures RootId(prev) in st ==> GetRoot(st, b, prev) == st[RootId(b) := Recoded(st[RootId(prev)])]
    ensures var root := Branch(0, []);
            RootId(prev) !in st || st[RootId(prev)] == root ==>
                GetRoot(st, b, prev) == st[RootId(prev) := root][RootId(b) := Recoded(root)]
  {
  }

  lemma WriteParts(names: Names, st: Store, key: Hash, val: Hash, prevVal: Option<Hash>, block: Hash,
                   prevBlock: Option<Hash>)
    requires names.next < 65535 && NamesOk(names)
    ensures var now := Named(names, block);
            var b, prev := IdOf(now, block), PrevOf(now, prevBlock);
            var r := ReplaceAt(GetRoot(st, b, prev), RootId(b), key, val, prevVal, b);
            b != CANONICAL && Step(State(names, st), Op.Write(key, val, prevVal, block, prevBlock)) ==
                (r.0, State(now, r.1))
  {
    hide GetRoot, ReplaceAt;
  }

  lemma CreateParts(names: Names, st: Store, key: Hash, block: Hash)
    requires names.next < 65535 && NamesOk(names)
    ensures var now := Named(names, block);
            var b := IdOf(now, block);
            var r := CreateAt(GetRoot(st, b, CANONICAL), RootId(b), Slotless(key), b);
            b != CANONICAL && Step(State(names, st), Create(key, block)) == (r.0, State(now, r.1))
  {
    hide GetRoot, CreateAt;
  }

  lemma JustifyParts(names: Names, st: Store, block: Hash)
    requires names.next < 65535
    ensures var b := PrevOf(names, Some(block));
            var r := JustifyAt(GetRoot(st, b, CANONICAL), RootId(b), b);
            && b == IdOf(names, block)
            && Step(State(names, st), Op.Justify(block))
               == if b == CANONICAL then (BlockNotExist, State(names, st))
                   else (if r.0 == Deleted then Ok else r.0, State(names, r.1))
  {
    hide GetRoot, JustifyAt;
  }

  lemma StateIs(l: Ledger)
    ensures l.State() == State(Names(l.ids, l.current), l.alloc.Flat())
  {
  }

  lemma PruneParts(names: Names, st: Store, block: Hash)
    requires names.next < 65535
    ensures var b := PrevOf(names, Some(block));
            Step(State(names, st), Op.Prune(block))
            == if b == CANONICAL then (BlockNotExist, State(names, st))
               else (Ok, State(Names(names.ids - {block}, names.next),
                   PruneAt(GetRoot(st, b, CANONICAL), RootId(b), b)))
  {
    hide GetRoot, PruneAt;
  }

  /** Opening a block adds at most its root. */
  lemma OpenNodes(st: Store, b: BlockId)
    requires b != CANONICAL
    ensures |NodesOf(GetRoot(st, b, CANONICAL), b)| <= |NodesOf(st, b)| + 1
  {
    assert NodesOf(GetRoot(st, b, CANONICAL), b) == NodesOf(st, b) + {RootId(b)};
  }

  lemma RootFacts(b: BlockId)
    ensures RootId(b).blk == b && |RootId(b).path| == 0
    ensures b != CANONICAL ==> InBlock(RootId(b), b) && Ordinary(RootId(b))
  {
  }

  lemma CalmLess(a: NodeAllocator, hot: set<NodeId>, n: nat, m: nat)
    requires a.Calm(hot, n) && m <= n
    ensures a.Calm(hot, m)
  {
  }
}

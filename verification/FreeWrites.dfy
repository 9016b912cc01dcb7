/** create_account, put and replace under any block in any order, also under blocks that others build on:
    the answers, what the writing block reads afterwards, and exactly what every other block sees. */
module FreeWrites {
  import opened Options
  import opened TrieTypes
  import opened Trie
  import opened TrieOps
  import opened Ownership
  import opened Sharing
  import opened LedgerSpec
  import opened LedgerRuns
  import opened SharedChanges

  /** A fresh id is available, account prefixes of 13 bytes are distinct and slots are 1 to 127. */
  ghost predicate FreeAllowed(s: State, op: Op)
  {
    && s.names.next < 65535
    && match op
       case Create(key, _) => Separate(s.store, key)
       case Write(key, _, _, _, _) => 0 < key[ACCOUNT_SIZE] < LEAF_ORDER
       case _ => false
  }

  /** The account now has these slots for every block that reaches it through b, and nothing else changed. */
  ghost predicate SeenThrough(st: Store, st': Store, b: BlockId, key: Hash, slots: seq<Hash>)
  {
    forall c: BlockId, k: Hash :: RootId(c) in st ==>
      Lookup(st', RootId(c), k)
      == if Account(k) == Account(key) && Visits(st, RootId(c), key, b) then Some(slots) else Lookup(st, RootId(c), k)
  }

  /** The writing block is one of them. */
  lemma OwnSeen(st: Store, b: BlockId, key: Hash)
    requires RootId(b) in st
    ensures Visits(st, RootId(b), key, b)
  {
  }

  /** Any create_account: refused exactly if the block reads the account. */
  lemma FreeCreate(s: State, key: Hash, block: Hash)
    requires Sound(s.store, s.names) && FreeAllowed(s, Create(key, block))
    ensures var names := Named(s.names, block);
            var b := IdOf(names, block);
            var st := GetRoot(s.store, b, CANONICAL);
            var (rc, s') := Step(s, Create(key, block));
            && s'.names == names && Sound(s'.store, names)
            && rc == (if Lookup(st, RootId(b), key).Some? then AlreadyExists else Ok)
            && Visits(st, RootId(b), key, b)
            && (rc == Ok ==> SeenThrough(st, s'.store, b, key, FreshSlots(key[ACCOUNT_SIZE := 0])))
            && (rc != Ok ==> s'.store == st)
  {
    NewNames(s, block);
    var names := Named(s.names, block);
    var b, account := IdOf(names, block), key[ACCOUNT_SIZE := 0];
    var st := GetRoot(s.store, b, CANONICAL);
    assert Separate(s.store, key) && Good(s.store);
    hide Good, AllOwned, Tagged, NamesOk, Separate, CreateAt, GetRoot, Lookup;
    OpenSound(s.store, names, b, CANONICAL);
    SeparateOpened(s.store, b, key);
    OwnSeen(st, b, key);
    CreateResult(st, RootId(b), account, b);
    CreateRefused(st, RootId(b), account, b);
    LookupByAccount(st, RootId(b), account, key);
    if CreateAt(st, RootId(b), account, b).0 == Ok {
      CreateSound(st, names, b, account);
      assert Owned(st, b) by { OwnedOf(st, names, b); }
      CreateSeen(st, b, account, key);
    }
  }

  lemma CreateSeen(st: Store, b: BlockId, account: Hash, key: Hash)
    requires Good(st) && Owned(st, b) && RootId(b) in st && Separate(st, account) &&
             CreateAt(st, RootId(b), account, b).0 == Ok
    requires account == key[ACCOUNT_SIZE := 0] && Account(account) == Account(key)
    ensures SeenThrough(st, CreateAt(st, RootId(b), account, b).1, b, key, FreshSlots(account))
  {
    assert account[ACCOUNT_SIZE := 0] == account;
    hide Good, OwnedBelow, Separate, CreateAt, Lookup, FreshSlots;
    forall c: BlockId, k: Hash | RootId(c) in st
      ensures Lookup(CreateAt(st, RootId(b), account, b).1, RootId(c), k)
           == if Account(k) == Account(key) &&
               Visits(st, RootId(c), key, b) then Some(FreshSlots(account)) else Lookup(st, RootId(c), k)
    {
      CreateSeenFrom(st, RootId(c), account, b, k);
      VisitsByAccount(st, RootId(c), account, key, b);
    }
  }

  lemma {:induction false} VisitsByAccount(st: Store, id: NodeId, k: Hash, key: Hash, b: BlockId)
    requires Account(k) == Account(key)
    ensures Visits(st, id, k, b) == Visits(st, id, key, b)
    decreases ACCOUNT_SIZE - |id.path|
  {
    if id in st && |id.path| < ACCOUNT_SIZE && st[id].Branch? {
      var l := |id.path|;
      assert k[l] == Account(k)[l] == Account(key)[l] == key[l];
      var next := Next(st[id].children, k[l]);
      hide Next;
      if next.Some? {
        VisitsByAccount(st, Below(id, k[l], next.value), k, key, b);
      }
    }
  }

  /** Any put or replace: the answer is what the block's own reading says. */
  lemma FreeWrite(s: State, key: Hash, val: Hash, prevVal: Option<Hash>, block: Hash, prevBlock: Option<Hash>)
    requires Sound(s.store, s.names) && FreeAllowed(s, Write(key, val, prevVal, block, prevBlock))
    ensures var names := Named(s.names, block);
            var b := IdOf(names, block);
            var st := GetRoot(s.store, b, PrevOf(names, prevBlock));
            var was := Lookup(st, RootId(b), key);
            var (rc, s') := Step(s, Write(key, val, prevVal, block, prevBlock));
            && s'.names == names && Sound(s'.store, names)
            && rc == ReplaceCode(was, key[ACCOUNT_SIZE], prevVal) && Visits(st, RootId(b), key, b)
            && (rc == Ok ==> was.Some? && key[ACCOUNT_SIZE] < |was.value|
                             && SeenThrough(st, s'.store, b, key, was.value[key[ACCOUNT_SIZE] := val]))
            && (rc != Ok ==> s'.store == st)
  {
    NewNames(s, block);
    var names := Named(s.names, block);
    var b, prev := IdOf(names, block), PrevOf(names, prevBlock);
    PrevInRange(names, prevBlock);
    var st := GetRoot(s.store, b, prev);
    hide Good, AllOwned, Tagged, NamesOk, ReplaceAt, GetRoot, Lookup;
    OpenSound(s.store, names, b, prev);
    OwnSeen(st, b, key);
    ReplaceResult(st, RootId(b), key, val, prevVal, b);
    ReplaceRefused(st, RootId(b), key, val, prevVal, b);
    if ReplaceAt(st, RootId(b), key, val, prevVal, b).0 == Ok {
      ReplaceSound(st, names, b, key, val, prevVal);
      OwnedOf(st, names, b);
      hide OwnedBelow;
      forall c: BlockId, k: Hash | RootId(c) in st
        ensures var old_ := Lookup(st, RootId(b), key);
                && old_.Some? && key[ACCOUNT_SIZE] < |old_.value|
                && Lookup(ReplaceAt(st, RootId(b), key, val, prevVal, b).1, RootId(c), k)
                   == if Account(k) == Account(key) && Visits(st, RootId(c), key, b)
                      then Some(old_.value[key[ACCOUNT_SIZE] := val])
                      else Lookup(st, RootId(c), k)
      {
        WriteSeenFrom(st, RootId(c), key, val, prevVal, b, k);
      }
    }
  }

  // ---------- runs ----------

  ghost predicate FreeRunAllowed(s: State, ops: seq<Op>)
    decreases |ops|
  {
    ops == [] || (FreeAllowed(s, ops[0]) && FreeRunAllowed(Step(s, ops[0]).1, ops[1..]))
  }

  /** So it is at every moment of every run of these calls, from the empty ledger on. */
  lemma {:induction false} FreeRun(s: State, ops: seq<Op>)
    requires Sound(s.store, s.names) && FreeRunAllowed(s, ops)
    ensures Run(s, ops).Some? && Sound(Run(s, ops).value.1.store, Run(s, ops).value.1.names)
    decreases |ops|
  {
    if ops != [] {
      match ops[0] {
        case Create(key, block) => FreeCreate(s, key, block);
        case Write(key, val, prevVal, block, prevBlock) => FreeWrite(s, key, val, prevVal, block, prevBlock);
        case _ =>
      }
      hide Sound, Step;
      FreeRun(Step(s, ops[0]).1, ops[1..]);
    }
  }
}

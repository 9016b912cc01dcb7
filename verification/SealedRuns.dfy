/** Runs that finish what they build on. Blocks are opened only on finished ones, only finished ones are
    justified, and only blocks nobody builds on are finalized; then every finished block, and canonical,
    proves all its slots at every moment.
 */
module SealedRuns {
  import opened Options
  import opened Scalars
  import opened Polynomials
  import opened Kzg
  import opened TrieTypes
  import opened Children
  import opened Trie
  import opened TrieOps
  import opened Isolation
  import opened Ownership
  import opened Pruning
  import opened Justifying
  import opened LedgerSpec
  import opened LedgerRuns
  import opened LedgerEvents
  import opened Finalizing
  import opened FinalizeRanges
  import opened ExistenceProofs
  import opened SealedTrees
  import opened SharedChanges

  /** The block an event is about, and the one it is opened on if it is not there. */
  function Target(s: State, e: Event): (b: BlockId)
    requires s.names.next < 65536
  {
    match e
    case Do(Create(_, block)) => IdOf(Named(s.names, block), block)
    case Do(Write(_, _, _, block, _)) => IdOf(Named(s.names, block), block)
    case Do(Justify(block)) => IdOf(s.names, block)
    case Do(Prune(block)) => IdOf(s.names, block)
    case Finalize(block) => IdOf(s.names, block)
  }

  function Base(s: State, e: Event): (b: BlockId)
    requires s.names.next < 65536
  {
    if e.Do? && e.op.Write? then PrevOf(Named(s.names, e.op.block), e.op.prevBlock) else CANONICAL
  }

  /** The rules, given the blocks that are finished. */
  ghost predicate Ordered(s: State, done: set<BlockId>, e: Event)
  {
    && EventAllowed(s, e)
    && (RootId(Target(s, e)) !in s.store ==> Base(s, e) in done)
    && (e.Do? && e.op.Justify? ==> Target(s, e) in done)
    && (e.Finalize? ==> Exclusive(s.store, Target(s, e)) || Target(s, e) == CANONICAL)
  }

  /** The blocks that are finished afterwards. */
  ghost function DoneAfter(k: Crypto, s: State, done: set<BlockId>, e: Event): (r: set<BlockId>)
    requires s.names.next < 65536
  {
    var b, rc := Target(s, e), EventStep(k, s, e).0;
    if b == CANONICAL then done
    else if e.Finalize? then done + {b}
    else if e.op.Justify? then {CANONICAL}
    else if rc == Ok then done - {b} else done
  }

  // ---------- finished blocks ----------

  /** Canonical and the finished blocks are sealed; every other block took over sealed subtrees only. */
  ghost predicate Finished(k: Crypto, st: Store, done: set<BlockId>)
  {
    && CANONICAL in done
    && (forall c :: c in done && c != CANONICAL ==> RootId(c) in st)
    && (forall c :: c in done && RootId(c) in st ==> Sealed(k, st, RootId(c)))
    && (forall c: BlockId :: RootId(c) in st ==> OthersSealed(k, st, RootId(c), c))
  }

  lemma OpenFinished(k: Crypto, st: Store, b: BlockId, prev: BlockId, done: set<BlockId>)
    requires Finished(k, st, done) && b != CANONICAL && (RootId(b) !in st ==> prev in done)
    ensures Finished(k, GetRoot(st, b, prev), done)
  {
    var st' := GetRoot(st, b, prev);
    if RootId(b) !in st {
      OpenedRoot(st, b, prev);
      OpenedOthers(k, st, b, prev);
      hide Sealed, OthersSealed;
      forall c: BlockId | RootId(c) in st'
        ensures OthersSealed(k, st', RootId(c), c) && (c in done ==> Sealed(k, st', RootId(c)))
      {
        if RootId(c) in st {
          OpenKeepsSealed(k, st, b, prev, c);
        } else if c != b {
          EmptySealed(k, st', RootId(c));
          SealedOthers(k, st', RootId(c), c);
        }
      }
    }
  }

  /** A change to b alone, which no other block builds on. */
  lemma ChangeFinished(k: Crypto, st: Store, st': Store, b: BlockId, done: set<BlockId>)
    requires Finished(k, st, done) && b != CANONICAL && Exclusive(st, b) && SameOutside(st, st', b)
    requires RootId(b) in st' ==> OthersSealed(k, st', RootId(b), b)
    ensures Finished(k, st', done - {b})
  {
    hide Exclusive, Sealed, OthersSealed;
    forall c: BlockId | c != b
      ensures SameAt(st, st', RootId(c))
      ensures RootId(c) in st' ==> OthersSealed(k, st', RootId(c), c)
      ensures RootId(c) in st' && c in done ==> Sealed(k, st', RootId(c))
    {
      assert SameAt(st, st', RootId(c));
      if RootId(c) in st {
        OthersKept(k, st, st', RootId(c), c, b);
        if c in done {
          SealedUndisturbed(k, st, st', RootId(c), b);
        }
      }
    }
  }

  lemma ReplaceFinished(k: Crypto, st: Store, b: BlockId, key: Hash, val: Hash, prev: Option<Hash>, done: set<BlockId>)
    requires Good(st) && Exclusive(st, b) && RootId(b) in st && b != CANONICAL && Finished(k, st, done)
    ensures var r := ReplaceAt(st, RootId(b), key, val, prev, b);
            Finished(k, r.1, if r.0 == Ok then done - {b} else done)
  {
    var r := ReplaceAt(st, RootId(b), key, val, prev, b);
    ReplaceRefused(st, RootId(b), key, val, prev, b);
    if r.0 == Ok {
      ReplaceConfined(st, RootId(b), key, val, prev, b);
      ReplaceOthers(k, st, RootId(b), key, val, prev, b);
      ConfinedOutside(st, r.1, [], b);
      hide Finished, ReplaceAt, Good, Confined, OthersSealed;
      ChangeFinished(k, st, r.1, b, done);
    }
  }

  lemma CreateFinished(k: Crypto, st: Store, b: BlockId, key: Hash, done: set<BlockId>)
    requires Good(st) && Exclusive(st, b) && RootId(b) in st && b != CANONICAL && Separate(st, key) &&
             Finished(k, st, done)
    ensures var r := CreateAt(st, RootId(b), key, b);
            Finished(k, r.1, if r.0 == Ok then done - {b} else done)
  {
    var r := CreateAt(st, RootId(b), key, b);
    CreateRefused(st, RootId(b), key, b);
    if r.0 == Ok {
      CreateConfined(st, RootId(b), key, b);
      CreateOthers(k, st, RootId(b), key, b);
      ConfinedOutside(st, r.1, [], b);
      hide Finished, CreateAt, Good, Confined, OthersSealed, Separate;
      ChangeFinished(k, st, r.1, b, done);
    }
  }

  lemma PruneFinished(k: Crypto, st: Store, b: BlockId, done: set<BlockId>)
    requires Good(st) && Owned(st, b) && Exclusive(st, b) && RootId(b) in st && b != CANONICAL && Finished(k, st, done)
    ensures Finished(k, PruneAt(st, RootId(b), b), done - {b})
  {
    var st' := PruneAt(st, RootId(b), b);
    PruneBlock(st, b);
    hide PruneAt, Finished, Lookup, Good, Owned;
    assert SameOutside(st, st', b);
    ChangeFinished(k, st, st', b, done);
  }

  lemma JustifyFinished(k: Crypto, st: Store, b: BlockId, done: set<BlockId>)
    requires Good(st) && Owned(st, b) && Pending(st, [], b) && RootId(b) in st && b != CANONICAL
    requires Finished(k, st, done) && b in done
    ensures Finished(k, JustifyAt(st, RootId(b), b).1, {CANONICAL})
  {
    var st' := JustifyAt(st, RootId(b), b).1;
    JustifyBlock(st, b);
    assert NodeOk(st, RootId(b), st[RootId(b)]) && GoodBelow(st, []);
    if EmptyRoot(st, b) {
      JustifyEmpty(st, b);
      hide JustifyAt, Lookup, Good, Owned, Pending, Sealed, OthersSealed;
      assert SameAt(st, st', RootId(CANONICAL));
      forall x: Byte ensures AgreeBelow(st, st', [x]) {
        forall j: NodeId | [x] <= j.path ensures SameAt(st, st', j) {
          assert j.path != [];
        }
      }
      if RootId(CANONICAL) in st {
        RootSealed(k, st, st', CANONICAL);
      }
    } else {
      hide JustifyAt, Lookup, Good, Owned, Pending, Sealed, OthersSealed;
      JustifySealed(k, st, RootId(b), b);
    }
    if RootId(CANONICAL) in st' {
      SealedOthers(k, st', RootId(CANONICAL), CANONICAL);
    }
  }

  lemma FinalizeFinished(k: Crypto, st: Store, b: BlockId, done: set<BlockId>)
    requires NonzeroHash(k) && Good(st) && Exclusive(st, b) && RootId(b) in st && b != CANONICAL &&
             Finished(k, st, done)
    ensures Finished(k, FinalStore(k, st, [], b), done + {b})
  {
    hide FinalStore, Final, Good, Exclusive, Sealed, OthersSealed;
    var st' := FinalStore(k, st, [], b);
    FinalizedIsSealed(k, st, RootId(b), b);
    FinalStoreAt(k, st, b, RootId(b));
    FinalOutside(k, st, b);
    SealedOthers(k, st', RootId(b), b);
    ChangeFinished(k, st, st', b, done);
  }

  // ---------- one event ----------

  lemma CreateEvent(k: Crypto, s: State, done: set<BlockId>, key: Hash, block: Hash)
    requires Sound(s.store, s.names) && Finished(k, s.store, done) && Ordered(s, done, Do(Create(key, block)))
    ensures var e := Do(Create(key, block));
            Finished(k, EventStep(k, s, e).1.store, DoneAfter(k, s, done, e))
  {
    NewNames(s, block);
    var b := IdOf(Named(s.names, block), block);
    assert Exclusive(s.store, b) && Separate(s.store, key) && Good(s.store);
    hide Good, Finished, CreateAt, Exclusive, Separate, AllOwned, Tagged, NamesOk;
    OpenFinished(k, s.store, b, CANONICAL, done);
    OpenGood(s.store, b, CANONICAL);
    OpenExclusive(s.store, b, CANONICAL, b);
    SeparateOpened(s.store, b, key);
    CreateFinished(k, GetRoot(s.store, b, CANONICAL), b, key[ACCOUNT_SIZE := 0], done);
  }

  lemma WriteEvent(k: Crypto, s: State, done: set<BlockId>, key: Hash, val: Hash, prevVal: Option<Hash>, block: Hash,
                   prevBlock: Option<Hash>)
    requires Sound(s.store, s.names) && Finished(k, s.store, done) &&
             Ordered(s, done, Do(Write(key, val, prevVal, block, prevBlock)))
    ensures var e := Do(Write(key, val, prevVal, block, prevBlock));
            Finished(k, EventStep(k, s, e).1.store, DoneAfter(k, s, done, e))
  {
    NewNames(s, block);
    var names := Named(s.names, block);
    var b, prev := IdOf(names, block), PrevOf(names, prevBlock);
    assert Exclusive(s.store, b) && Good(s.store);
    hide Good, Finished, ReplaceAt, Exclusive, AllOwned, Tagged, NamesOk;
    OpenFinished(k, s.store, b, prev, done);
    OpenGood(s.store, b, prev);
    OpenExclusive(s.store, b, prev, b);
    ReplaceFinished(k, GetRoot(s.store, b, prev), b, key, val, prevVal, done);
  }

  lemma JustifyEvent(k: Crypto, s: State, done: set<BlockId>, block: Hash)
    requires Sound(s.store, s.names) && Finished(k, s.store, done) && Ordered(s, done, Do(Justify(block)))
    ensures var e := Do(Justify(block));
            Finished(k, EventStep(k, s, e).1.store, DoneAfter(k, s, done, e))
  {
    var b := IdOf(s.names, block);
    if b != CANONICAL {
      assert RootId(b) in s.store && Owned(s.store, b);
      hide Good, Finished, JustifyAt, AllOwned, Tagged, NamesOk, Pending, Owned;
      JustifyFinished(k, s.store, b, done);
    }
  }

  lemma PruneEvent(k: Crypto, s: State, done: set<BlockId>, block: Hash)
    requires Sound(s.store, s.names) && Finished(k, s.store, done) && Ordered(s, done, Do(Prune(block)))
    ensures var e := Do(Prune(block));
            Finished(k, EventStep(k, s, e).1.store, DoneAfter(k, s, done, e))
  {
    var b := IdOf(s.names, block);
    if b != CANONICAL {
      assert Owned(s.store, b);
      hide Good, Finished, PruneAt, AllOwned, Tagged, NamesOk, Exclusive, Owned;
      OpenFinished(k, s.store, b, CANONICAL, done);
      OpenGood(s.store, b, CANONICAL);
      OpenExclusive(s.store, b, CANONICAL, b);
      OpenOwned(s.store, b, CANONICAL, b);
      PruneFinished(k, GetRoot(s.store, b, CANONICAL), b, done);
    }
  }

  lemma FinalizeEvent(k: Crypto, s: State, done: set<BlockId>, block: Hash)
    requires NonzeroHash(k) && Sound(s.store, s.names) && Finished(k, s.store, done) &&
             Ordered(s, done, Finalize(block))
    ensures Finished(k, EventStep(k, s, Finalize(block)).1.store, DoneAfter(k, s, done, Finalize(block)))
  {
    var b := IdOf(s.names, block);
    if b != CANONICAL {
      hide Good, Finished, FinalStore, AllOwned, Tagged, NamesOk, Exclusive;
      OpenFinished(k, s.store, b, CANONICAL, done);
      OpenGood(s.store, b, CANONICAL);
      OpenExclusive(s.store, b, CANONICAL, b);
      FinalizeFinished(k, GetRoot(s.store, b, CANONICAL), b, done);
    }
  }

  /** Every event within the rules keeps the relation to the maps and what is finished. */
  ghost predicate Holds(k: Crypto, s: State, sp: Spec, done: set<BlockId>)
  {
    Refines(s, sp) && Finished(k, s.store, done)
  }

  lemma EventKeeps(k: Crypto, s: State, sp: Spec, done: set<BlockId>, e: Event)
    requires NonzeroHash(k) && Holds(k, s, sp, done) && Ordered(s, done, e)
    ensures EventStep(k, s, e).0 == EventSpec(sp, e).0
    ensures Holds(k, EventStep(k, s, e).1, EventSpec(sp, e).1, DoneAfter(k, s, done, e))
  {
    assert Sound(s.store, s.names);
    hide Finished, Ordered, EventStep, EventSpec, DoneAfter, Refines, Sound;
    EventRefines(k, s, sp, e);
    match e
    case Do(Create(key, block)) => CreateEvent(k, s, done, key, block);
    case Do(Write(key, val, prevVal, block, prevBlock)) => WriteEvent(k, s, done, key, val, prevVal, block, prevBlock);
    case Do(Justify(block)) => JustifyEvent(k, s, done, block);
    case Do(Prune(block)) => PruneEvent(k, s, done, block);
    case Finalize(block) => FinalizeEvent(k, s, done, block);
  }

  // ---------- runs ----------

  /** The moments of a run: the ledger, the maps and the finished blocks. */
  datatype Moment = Moment(s: State, sp: Spec, done: set<BlockId>)

  ghost function MomentAfter(k: Crypto, m: Moment, e: Event): (r: Moment)
    requires m.s.names.next < 65536 && m.sp.names.next < 65536
  {
    Moment(EventStep(k, m.s, e).1, EventSpec(m.sp, e).1, DoneAfter(k, m.s, m.done, e))
  }

  /** m' is where a run from m within the rules ends. */
  ghost predicate Reaches(k: Crypto, m: Moment, es: seq<Event>, m': Moment)
    decreases |es|
  {
    if es == [] then m' == m
    else Ordered(m.s, m.done, es[0]) && m.sp.names == m.s.names && Reaches(k, MomentAfter(k, m, es[0]), es[1..], m')
  }

  lemma {:induction false} RunHolds(k: Crypto, m: Moment, es: seq<Event>, m': Moment)
    requires NonzeroHash(k) && Holds(k, m.s, m.sp, m.done) && Reaches(k, m, es, m')
    ensures Holds(k, m'.s, m'.sp, m'.done)
    decreases |es|
  {
    if es != [] {
      EventKeeps(k, m.s, m.sp, m.done, es[0]);
      hide Holds, Ordered, EventStep, EventSpec, DoneAfter;
      RunHolds(k, MomentAfter(k, m, es[0]), es[1..], m');
    }
  }

  const BEGIN: Moment := Moment(START, SPEC_START, {CANONICAL})

  lemma BeginHolds(k: Crypto)
    ensures Holds(k, BEGIN.s, BEGIN.sp, BEGIN.done)
  {
    StartRefines();
  }

  /** Main theorem: at every moment of every run within the rules, the openings generated for any slot
      that a finished block or canonical has pass the check, whatever the challenges are. */
  lemma FinishedProve(k: Crypto, es: seq<Event>, m: Moment, b: BlockId, key: Hash, slots: seq<Hash>,
                      zs: seq<Scalar>, ys: seq<Scalar>, pis: seq<Scalar>, rs: seq<Scalar>)
    requires ValidCrypto(k) && NonzeroHash(k) && Reaches(k, BEGIN, es, m) && b in m.done
    requires ReadBlock(m.sp.views, b, key) == Some(slots) && key[ACCOUNT_SIZE] < |slots| &&
             slots[key[ACCOUNT_SIZE]] != ZERO_HASH
    requires IsProof(k, key, slots[key[ACCOUNT_SIZE]], OpenPath(m.s.store, RootId(b), key), zs, ys, pis) &&
             |rs| == |pis|
    ensures var o := OpenPath(m.s.store, RootId(b), key);
            && o.code == Ok && Weighted(pis, o.cs, zs, ys, rs, k.s, |pis|) == 0
            && RootId(b) in m.s.store && o.cs[|pis| - 1] == m.s.store[RootId(b)].commit
  {
    BeginHolds(k);
    RunHolds(k, BEGIN, es, m);
    hide Reaches, Sealed, OthersSealed, IsProof, Weighted, OpenPath, ValidCrypto, NonzeroHash;
    assert Lookup(m.s.store, RootId(b), key) == Some(slots);
    ExistenceComplete(k, m.s.store, b, key, slots, zs, ys, pis, rs);
  }

  // ---------- a block finalized over an unfinished one ----------

  /** Block 2 as finalize leaves it: its one entry is block 1's and stays as it was. */
  lemma UnfinishedRoot(k: Crypto)
    ensures var st', cs := FinalStore(k, ExampleStore(), [], 2), [Child(7, 7, 1, 1)];
            && RootId(2) in st' && st'[RootId(2)] == Branch(Commit(k, BranchValues(cs)), cs)
            && NodeId([7], 1) in st' && st'[NodeId([7], 1)] == NewLeaf(ExampleHash(7, 0, 0), 1)
            && Next(cs, 7) == Some(1) && ScalarAt(cs, 7) == 1
    ensures var st := ExampleStore();
            && RootId(2) in st && st[RootId(2)] == Branch(0, [Child(7, 7, 1, 1)])
            && NodeId([7], 1) in st && st[NodeId([7], 1)] == NewLeaf(ExampleHash(7, 0, 0), 1)
  {
    var st, cs := ExampleStore(), [Child(7, 7, 1, 1)];
    assert Entry(cs, 7) == Some(cs[0]);
    hide Commit, BranchValues, NewLeaf, ExampleHash;
    FinalStoreAt(k, st, 2, RootId(2));
    assert cs[1..] == [] && FinalChildren(k, st, RootId(2), [], 2) == [];
    assert FinalChildren(k, st, RootId(2), cs, 2) == cs;
    FinalOutside(k, st, 2);
    assert SameAt(st, FinalStore(k, st, [], 2), NodeId([7], 1));
  }

  lemma ExampleSlot()
    ensures var key, leaf := ExampleHash(7, 0, 0), NewLeaf(ExampleHash(7, 0, 0), 1);
            && key[0] == 7 && key[ACCOUNT_SIZE] == 0 && SamePath(leaf.path, key, 1)
            && 0 < |leaf.slots| && leaf.slots[0] != ZERO_HASH && leaf.commit == 0
  {
    var key, leaf := ExampleHash(7, 0, 0), NewLeaf(ExampleHash(7, 0, 0), 1);
    assert key[ACCOUNT_SIZE := 0] == key && leaf.slots[0] == key;
    assert key[0] == 7 && ZERO_HASH[0] == 0;
  }

  lemma Placeholder(k: Crypto, st: Store, b: BlockId)
    requires RootId(b) in st && st[RootId(b)].Branch? && st[RootId(b)].children == [Child(7, 7, 1, 1)] && b != 1
    requires NodeId([7], 1) in st && st[NodeId([7], 1)].commit == 0 && k.hash(0) != 1
    ensures !Sealed(k, st, RootId(b)) && !OthersSealed(k, st, RootId(b), b)
  {
    hide Commit, BranchValues;
    var c := Child(7, 7, 1, 1);
    assert Below(RootId(b), 7, 1) == NodeId([7], 1);
    assert st[RootId(b)].children[0] == c;
    assert !SealedChild(k, st, RootId(b), c) && !OthersSealedChild(k, st, RootId(b), c, b);
  }

  lemma OpenTwo(st: Store, b: BlockId, key: Hash, c: BlockId)
    requires RootId(b) in st && st[RootId(b)].Branch? && Next(st[RootId(b)].children, key[0]) == Some(c)
    requires NodeId([key[0]], c) in st && st[NodeId([key[0]], c)].Leaf? &&
             SamePath(st[NodeId([key[0]], c)].path, key, 1)
    requires var slots := st[NodeId([key[0]], c)].slots;
              key[ACCOUNT_SIZE] < |slots| && slots[key[ACCOUNT_SIZE]] != ZERO_HASH
    ensures OpenPath(st, RootId(b), key).code == Ok
  {
    hide Next, BranchValues, LeafValues, SamePath;
    assert Below(RootId(b), key[0], c) == NodeId([key[0]], c);
    assert OpenPath(st, NodeId([key[0]], c), key).code == Ok;
  }

  /** The openings for the account are produced and do not pass: the root's entry still holds the
      placeholder. */
  lemma UnfinishedFails(k: Crypto, val: Hash)
    requires ValidCrypto(k) && NonzeroHash(k) && k.hash(0) != 1
    ensures var st, key := ExampleStore(), ExampleHash(7, 0, 0);
            var st' := FinalStore(k, st, [], 2);
            var o := OpenPath(st', RootId(2), key);
            && Run(START, ExampleOps()).Some? && Run(START, ExampleOps()).value.1.store == st
            && !OthersSealed(k, st, RootId(2), 2) && !Sealed(k, st', RootId(2))
            && o.code == Ok && |o.cs| >= 3
            && !Opens(o.cs[|o.cs| - 1], Pow(k.w, key[0]), YValue(k, key, val, o.cs, |o.cs| - 1),
                      PiOf(k, BranchValues([Child(7, 7, 1, 1)]), key[0]), k.s)
  {
    hide *;
    var st, key := ExampleStore(), ExampleHash(7, 0, 0);
    var st' := FinalStore(k, st, [], 2);
    ExampleReached();
    ExampleSound();
    ExampleSlot();
    FinalGood(k, st, 2);
    UnfinishedRoot(k);
    Placeholder(k, st, 2);
    Placeholder(k, st', 2);
    OpenTwo(st', 2, key, 1);
    TopOpensIff(k, st', 2, key, val, st'[RootId(2)], NodeId([7], 1));
  }

  /** So for any other challenges at most one value of the last one lets them pass. */
  lemma UnfinishedRejected(k: Crypto, val: Hash, zs: seq<Scalar>, ys: seq<Scalar>, pis: seq<Scalar>, rs: seq<Scalar>,
                           r: Scalar)
    requires ValidCrypto(k) && NonzeroHash(k) && k.hash(0) != 1
    requires var o := OpenPath(FinalStore(k, ExampleStore(), [], 2), RootId(2), ExampleHash(7, 0, 0));
             IsProof(k, ExampleHash(7, 0, 0), val, o, zs, ys, pis) && |rs| == |pis| && r != rs[|rs| - 1]
    ensures var cs := OpenPath(FinalStore(k, ExampleStore(), [], 2), RootId(2), ExampleHash(7, 0, 0)).cs;
            Weighted(pis, cs, zs, ys, rs, k.s, |pis|) != 0 ||
                Weighted(pis, cs, zs, ys, rs[|rs| - 1 := r], k.s, |pis|) != 0
  {
    hide *;
    var st, key := ExampleStore(), ExampleHash(7, 0, 0);
    var st' := FinalStore(k, st, [], 2);
    ExampleSound();
    ExampleSlot();
    FinalGood(k, st, 2);
    UnfinishedRoot(k);
    OpenTwo(st', 2, key, 1);
    StaleRejected(k, st', 2, key, val, st'[RootId(2)], NodeId([7], 1), zs, ys, pis, rs, r);
  }
}

/** The calls of the ledger together with finalize_block, as events (ledger.cpp:198-264,
    processing.cpp:31-141). */
module LedgerEvents {
  import opened Options
  import opened TrieTypes
  import opened Trie
  import opened Isolation
  import opened Ownership
  import opened LedgerSpec
  import opened LedgerRuns
  import opened Finalizing
  import opened FinalizeRanges
  import opened FinalizeBlock
  import opened ExistenceProofs

  // ---------- events ----------

  /** A call of the ledger, or finalize_block. */
  datatype Event = Do(op: Op) | Finalize(block: Hash)

  ghost function EventStep(k: Crypto, s: State, e: Event): (r: (Code, State))
    requires s.names.next < 65536
  {
    match e
    case Do(op) => Step(s, op)
    case Finalize(block) =>
      var b := IdOf(s.names, block);
      if b == CANONICAL then (BlockNotExist, s)
      else (Ok, State(s.names, FinalStore(k, GetRoot(s.store, b, CANONICAL), [], b)))
  }

  /** Finalizing changes no reading; it only opens the block. */
  ghost function EventSpec(sp: Spec, e: Event): (r: (Code, Spec))
    requires sp.names.next < 65536
  {
    match e
    case Do(op) => SpecStep(sp, op)
    case Finalize(block) =>
      var b := IdOf(sp.names, block);
      if b == CANONICAL then (BlockNotExist, sp) else (Ok, Spec(sp.names, OpenView(sp.views, b, CANONICAL)))
  }

  /** The rules of the ledger; finalize_block has none but that a fresh id is available. */
  ghost predicate EventAllowed(s: State, e: Event)
  {
    s.names.next < 65535 && (e.Do? ==> Allowed(s, e.op))
  }

  // ---------- finalizing keeps the relation ----------

  lemma ExclusiveBetween(k: Crypto, st: Store, st': Store, b: BlockId, c: BlockId)
    requires Between(k, st, st', b) && Exclusive(st, c)
    ensures Exclusive(st', c)
  {
    forall id | id in st' && id.blk != c ensures NoChildOf(st'[id], c) {
      assert Half(k, st, id, st'[id], b);
      assert NoChildOf(st[id], c);
    }
  }

  lemma FinalizeRefines(k: Crypto, st: Store, names: Names, views: map<BlockId, View>, b: BlockId)
    requires NonzeroHash(k) && Sound(st, names) && SameReads(st, views)
    ensures Sound(FinalStore(k, st, [], b), names) && SameReads(FinalStore(k, st, [], b), views)
  {
    var st' := FinalStore(k, st, [], b);
    FinalStoreBetween(k, st, [], b);
    hide FinalStore, Half, NamesOk;
    FinalGood(k, st, b);
    hide Good;
    forall c: BlockId | c != CANONICAL ensures Owned(st', c) {
      assert Owned(st, c);
      OwnedBetween(k, st, st', b, [], c);
    }
    forall c: BlockId | names.next <= c ensures Exclusive(st', c) {
      ExclusiveBetween(k, st, st', b, c);
    }
    forall c: BlockId, key: Hash ensures Lookup(st', RootId(c), key) == ReadBlock(views, c, key) {
      LookupBetween(k, st, st', b, RootId(c), key);
    }
  }

  /** One event within the rules: same answer, and the relation is kept. */
  lemma EventRefines(k: Crypto, s: State, sp: Spec, e: Event)
    requires NonzeroHash(k) && Refines(s, sp) && EventAllowed(s, e)
    ensures EventStep(k, s, e).0 == EventSpec(sp, e).0 && Refines(EventStep(k, s, e).1, EventSpec(sp, e).1)
  {
    if e.Do? {
      hide Step, SpecStep, Refines, Allowed;
      StepRefines(s, sp, e.op);
    } else {
      var b := IdOf(s.names, e.block);
      if b != CANONICAL {
        assert b < s.names.next;
        hide Good, AllOwned, Tagged, SameReads, NamesOk, FinalStore;
        OpenSound(s.store, s.names, b, CANONICAL);
        OpenRefines(s.store, sp.views, b, CANONICAL);
        FinalizeRefines(k, GetRoot(s.store, b, CANONICAL), s.names, OpenView(sp.views, b, CANONICAL), b);
      }
    }
  }

  // ---------- runs ----------

  /** The answers of a run, in order, and where it ends. */
  ghost function EventRun(k: Crypto, s: State, es: seq<Event>): (r: Option<(seq<Code>, State)>)
    decreases |es|
  {
    if es == [] then Some(([], s))
    else if s.names.next >= 65536 then None
    else
      var (rc, s') := EventStep(k, s, es[0]);
      match EventRun(k, s', es[1..])
      case None => None
      case Some(rest) => Some(([rc] + rest.0, rest.1))
  }

  ghost function EventSpecRun(sp: Spec, es: seq<Event>): (r: Option<(seq<Code>, Spec)>)
    decreases |es|
  {
    if es == [] then Some(([], sp))
    else if sp.names.next >= 65536 then None
    else
      var (rc, sp') := EventSpec(sp, es[0]);
      match EventSpecRun(sp', es[1..])
      case None => None
      case Some(rest) => Some(([rc] + rest.0, rest.1))
  }

  /** Every event of the run keeps to the rules when its turn comes. */
  ghost predicate EventsAllowed(k: Crypto, s: State, es: seq<Event>)
    decreases |es|
  {
    es == [] || (EventAllowed(s, es[0]) && EventsAllowed(k, EventStep(k, s, es[0]).1, es[1..]))
  }

  /** Runs with finalize_block in them answer and read as the maps do. */
  lemma {:induction false} EventRunRefines(k: Crypto, s: State, sp: Spec, es: seq<Event>)
    requires NonzeroHash(k) && Refines(s, sp) && EventsAllowed(k, s, es)
    ensures EventRun(k, s, es).Some? && EventSpecRun(sp, es).Some?
    ensures EventRun(k, s, es).value.0 == EventSpecRun(sp, es).value.0
    ensures Refines(EventRun(k, s, es).value.1, EventSpecRun(sp, es).value.1)
    decreases |es|
  {
    if es != [] {
      EventRefines(k, s, sp, es[0]);
      hide Refines, Allowed, EventStep, EventSpec;
      EventRunRefines(k, EventStep(k, s, es[0]).1, EventSpec(sp, es[0]).1, es[1..]);
    }
  }
}

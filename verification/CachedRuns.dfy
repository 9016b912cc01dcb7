/** Whole runs over cache and database: while every call has the room it needs in the cache, the ledger
    does what the map of views does, whatever the cache gives up on the way. */
module CachedRuns {
  import opened Options
  import opened Scalars
  import opened Kzg
  import opened TrieTypes
  import opened Trie
  import opened Ownership
  import opened Justifying
  import opened LedgerSpec
  import opened LedgerRuns
  import opened Finalizing
  import opened FinalizeRanges
  import opened FinalizeBlock
  import opened LedgerEvents
  import opened Allocator
  import opened TrieMethods
  import opened BlockMethods
  import opened LedgerMethods
  import opened FinalizeMethods

  // ---------- room ----------

  /** Nodes that a call may hold in the cache at once; finalize and justify hold the whole block. */
  ghost function Need(s: State, e: Event): (r: nat)
    ensures r >= TOUCHED
    ensures e.Do? && e.op.Justify? ==> r >= |NodesOf(s.store, IdOf(s.names, e.op.block))| + PATH_SIZE + 3
    ensures e.Finalize? ==> r >= |NodesOf(s.store, IdOf(s.names, e.block))| + PATH_SIZE + 3
  {
    var n :=
      if e.Finalize? then |NodesOf(s.store, IdOf(s.names, e.block))| + PATH_SIZE + 3
      else if e.op.Justify? then |NodesOf(s.store, IdOf(s.names, e.op.block))| + PATH_SIZE + 3
      else 0;
    if n < TOUCHED then TOUCHED else n
  }

  /** The cache has the room, also beside the whole store while some block's root is empty or full: such a
      root is lost when it leaves the cache. */
  ghost predicate Fits(s: State, e: Event, capacity: nat)
  {
    && Small(s.store) && Need(s, e) <= capacity
    && (AllReturn(s.store) || |s.store| + Need(s, e) <= capacity)
  }

  ghost predicate RunFits(k: Crypto, s: State, es: seq<Event>, capacity: nat)
    decreases |es|
  {
    es == [] || (s.names.next < 65536 && Fits(s, es[0], capacity) &&
        RunFits(k, EventStep(k, s, es[0]).1, es[1..], capacity))
  }

  /** Why an empty root must not be given up: the block had no accounts, and comes back with canonical's. */
  lemma LostRoot(st: Store, b: BlockId, k: Hash)
    requires Good(st) && b != CANONICAL && RootId(b) in st && st[RootId(b)] == Branch(0, []) && !FullRoot(st, CANONICAL)
    ensures Lookup(st, RootId(b), k) == None
    ensures Lookup(GetRoot(st - {RootId(b)}, b, CANONICAL), RootId(b), k) == Lookup(st, RootId(CANONICAL), k)
  {
    LookupStep(st, RootId(b), k);
    GoodWithout(st, b);
    WithoutRoot(st, b, CANONICAL, k);
    OpenReads(st - {RootId(b)}, b, CANONICAL, b, k);
  }

  // ---------- finalize_block ----------

  lemma OpenForFinalize(st: Store, b: BlockId, room: nat, hot: set<NodeId>)
    requires Good(st) && Owned(st, b) && b != CANONICAL && room >= |NodesOf(st, b)| + 3
    ensures var st' := GetRoot(st, b, CANONICAL);
            Good(st') && Owned(st', b) && Enough(st', b, hot, room - 2)
  {
    OpenGood(st, b, CANONICAL);
    OpenOwned(st, b, CANONICAL, b);
    OpenNodes(st, b);
    hide Good, Owned, GetRoot;
    FewerLeft(NodesOf(GetRoot(st, b, CANONICAL), b), hot);
  }

  lemma FewerLeft<T>(s: set<T>, t: set<T>)
    ensures |s - t| <= |s|
  {
    assert s == (s - t) + (s * t);
  }

  method FinalizeUnder(l: Ledger, b: BlockId, order: seq<Range>, k: Settings, c: Crypto, ghost room: nat)
    returns (rc: Code, out: Scalar)
    requires ValidSettings(k, 8, c.w, c.v, c.s) && NonzeroHash(c) && multiset(order) == multiset(BATCHES)
    requires l.alloc.Calm({}, room) && Good(l.alloc.Flat()) && Owned(l.alloc.Flat(), b) && b != CANONICAL
    requires room >= |NodesOf(l.alloc.Flat(), b)| + 3
    modifies l.alloc, l.alloc.cache
    ensures l.alloc.Stable() && rc == Ok
    ensures l.alloc.Flat() == FinalStore(c, GetRoot(old(l.alloc.Flat()), b, CANONICAL), [], b)
    ensures RootId(b) in l.alloc.Flat() && out == c.hash(l.alloc.Flat()[RootId(b)].commit)
  {
    hide *;
    ghost var st := l.alloc.Flat();
    ghost var hot := l.OpenRoot(b, CANONICAL, room);
    OpenForFinalize(st, b, room, hot);
    rc, out := FinalizeRoot(l.alloc, b, order, k, c, hot, room - 2);
  }

  lemma FinalizeParts(k: Crypto, names: Names, st: Store, block: Hash)
    requires names.next < 65536
    ensures var b := PrevOf(names, Some(block));
            && b == IdOf(names, block)
            && EventStep(k, State(names, st), Finalize(block))
               == if b == CANONICAL then (BlockNotExist, State(names, st))
                  else (Ok, State(names, FinalStore(k, GetRoot(st, b, CANONICAL), [], b)))
  {
    hide GetRoot, FinalStore;
  }

  /** finalize_block, its four tasks in any order: every node of the block in its finished form, and the
      hash of the root's commitment. */
  method FinalizeLedger(l: Ledger, block: Hash, order: seq<Range>, k: Settings, c: Crypto, ghost room: nat)
    returns (rc: Code, out: Scalar)
    requires ValidSettings(k, 8, c.w, c.v, c.s) && NonzeroHash(c) && multiset(order) == multiset(BATCHES)
    requires l.alloc.Calm({}, room) && Good(l.alloc.Flat()) && l.current < 65536
    requires var b := IdOf(Names(l.ids, l.current), block);
             b != CANONICAL ==> Owned(l.alloc.Flat(), b) && room >= |NodesOf(l.alloc.Flat(), b)| + 3
    modifies l.alloc, l.alloc.cache
    ensures l.alloc.Stable() && (rc, l.State()) == EventStep(c, old(l.State()), Finalize(block))
    ensures var root := RootId(IdOf(Names(l.ids, l.current), block));
            rc == Ok ==> root in l.alloc.Flat() && out == c.hash(l.alloc.Flat()[root].commit)
  {
    hide *;
    StateIs(l);
    FinalizeParts(c, Names(l.ids, l.current), l.alloc.Flat(), block);
    out := 0;
    var b := l.GetBlockId(Some(block));
    if b == CANONICAL {
      CalmStable(l.alloc, {}, room);
      return BlockNotExist, 0;
    }
    rc, out := FinalizeUnder(l, b, order, k, c, room);
    StateIs(l);
  }

  // ---------- one call ----------

  lemma MayFinalize(s: State, sp: Spec, block: Hash)
    requires Refines(s, sp)
    ensures Good(s.store) && (IdOf(s.names, block) != CANONICAL ==> Owned(s.store, IdOf(s.names, block)))
  {
  }

  lemma CallParts(k: Crypto, s: State, sp: Spec, e: Event, room: nat)
    requires s.names == sp.names && EventAllowed(s, e) && room >= Need(s, e)
    ensures s.names.next < 65536 && room >= TOUCHED
    ensures e.Do? ==>
              && Allowed(s, e.op) && EventStep(k, s, e) == Step(s, e.op) && EventSpec(sp, e) == SpecStep(sp, e.op)
              && (e.op.Justify? ==> room >= |NodesOf(s.store, IdOf(s.names, e.op.block))| + PATH_SIZE + 3)
    ensures e.Finalize? ==> room >= |NodesOf(s.store, IdOf(s.names, e.block))| + 3
  {
    hide Step, SpecStep, Allowed;
  }

  /** Any call: over cache and database the ledger does what the map of views does. */
  method Call(l: Ledger, e: Event, order: seq<Range>, k: Settings, c: Crypto, ghost room: nat, ghost sp: Spec)
    returns (rc: Code)
    requires ValidSettings(k, 8, c.w, c.v, c.s) && NonzeroHash(c) && multiset(order) == multiset(BATCHES)
    requires l.alloc.Calm({}, room) && Small(l.alloc.Flat()) && room >= Need(l.State(), e)
    requires Refines(l.State(), sp) && EventAllowed(l.State(), e)
    modifies l, l.alloc, l.alloc.cache
    ensures l.alloc.Stable() && (rc, l.State()) == EventStep(c, old(l.State()), e)
    ensures rc == EventSpec(sp, e).0 && Refines(l.State(), EventSpec(sp, e).1)
  {
    CallParts(c, l.State(), sp, e, room);
    hide *;
    StateIs(l);
    EventRefines(c, l.State(), sp, e);
    match e
    case Do(op) => rc := l.Perform(op, room, sp);
    case Finalize(block) =>
      MayFinalize(l.State(), sp, block);
      var out;
      rc, out := FinalizeLedger(l, block, order, k, c, room);
  }

  // ---------- runs ----------

  lemma RunUnfold(k: Crypto, s: State, sp: Spec, es: seq<Event>, capacity: nat)
    requires EventsAllowed(k, s, es) && RunFits(k, s, es, capacity) && Refines(s, sp) && es != []
    ensures s.names.next < 65535 && sp.names == s.names && EventAllowed(s, es[0])
    ensures Small(s.store) && Need(s, es[0]) <= capacity &&
            (AllReturn(s.store) || |s.store| + Need(s, es[0]) <= capacity)
    ensures var r, q := EventStep(k, s, es[0]), EventSpec(sp, es[0]);
            && EventsAllowed(k, r.1, es[1..]) && RunFits(k, r.1, es[1..], capacity)
            && (EventRun(k, r.1, es[1..]).Some? ==>
                  EventRun(k, s, es) == Some(([r.0] + EventRun(k, r.1, es[1..]).value.0,
                      EventRun(k, r.1, es[1..]).value.1)))
            && (EventSpecRun(q.1, es[1..]).Some? ==>
                  EventSpecRun(sp, es) == Some(([q.0] + EventSpecRun(q.1, es[1..]).value.0,
                      EventSpecRun(q.1, es[1..]).value.1)))
  {
    hide EventStep, EventSpec, Sound, SameReads;
  }

  lemma RunNothing(k: Crypto, s: State, sp: Spec)
    ensures EventRun(k, s, []) == Some(([], s)) && EventSpecRun(sp, []) == Some(([], sp))
  {
  }

  /** Any run that keeps to the rules and has the room: the answers are those of the maps, and every block
      reads as its map at the end. Each finalize_block may run its tasks in an order of its own. */
  method PerformAll(l: Ledger, es: seq<Event>, orders: seq<seq<Range>>, k: Settings, c: Crypto, ghost sp: Spec)
    returns (codes: seq<Code>)
    requires ValidSettings(k, 8, c.w, c.v, c.s) && NonzeroHash(c)
    requires |orders| == |es| && forall i :: 0 <= i < |orders| ==> multiset(orders[i]) == multiset(BATCHES)
    requires l.alloc.Stable() && Refines(l.State(), sp)
    requires EventsAllowed(c, l.State(), es) && RunFits(c, l.State(), es, l.alloc.cache.capacity)
    modifies l, l.alloc, l.alloc.cache
    ensures l.alloc.Stable() && EventRun(c, old(l.State()), es) == Some((codes, l.State()))
    ensures EventSpecRun(sp, es).Some? && codes == EventSpecRun(sp, es).value.0
    ensures Refines(l.State(), EventSpecRun(sp, es).value.1)
    decreases |es|
  {
    hide *;
    StateIs(l);
    if es == [] {
      RunNothing(c, l.State(), sp);
      return [];
    }
    ghost var room := Need(l.State(), es[0]);
    RunUnfold(c, l.State(), sp, es, l.alloc.cache.capacity);
    Rested(l.alloc, room);
    var rc := Call(l, es[0], orders[0], k, c, room, sp);
    var rest := PerformAll(l, es[1..], orders[1..], k, c, EventSpec(sp, es[0]).1);
    return [rc] + rest;
  }

  // ---------- the empty canonical root ----------

  /** No canonical block is an empty one. */
  function WithCanonical(views: map<BlockId, View>): (r: map<BlockId, View>)
  {
    if CANONICAL in views then views else views[CANONICAL := map[]]
  }

  lemma OpenAlike(views: map<BlockId, View>, b: BlockId, prev: BlockId)
    requires b != CANONICAL
    ensures OpenView(WithCanonical(views), b, prev) == WithCanonical(OpenView(views, b, prev))
    ensures OpenView(WithCanonical(views), b, prev)[b] == OpenView(views, b, prev)[b]
  {
    hide FullView;
    if CANONICAL !in views && b !in views {
      if prev == CANONICAL {
        assert OpenView(WithCanonical(views), b, prev) == views[CANONICAL := map[]][b := map[]];
      } else {
        var o := OpenView(views, b, prev);
        assert OpenView(WithCanonical(views), b, prev) == o[CANONICAL := map[]];
      }
    }
  }

  lemma ChangeAlike(o: map<BlockId, View>, b: BlockId, v: View)
    requires b != CANONICAL && b in o
    ensures WithCanonical(o)[b := v] == WithCanonical(o[b := v]) && WithCanonical(o) - {b} == WithCanonical(o - {b})
    ensures JustifiedViews(WithCanonical(o), b) == WithCanonical(JustifiedViews(o, b))
  {
    if CANONICAL !in o {
      assert o[CANONICAL := map[]][b := v] == o[b := v][CANONICAL := map[]];
    }
  }

  lemma AbsentIsEmpty(s: Spec, op: Op)
    requires NamesOk(s.names) && s.names.next < 65536
    ensures var r, q := SpecStep(s, op), SpecStep(Spec(s.names, WithCanonical(s.views)), op);
            q.0 == r.0 && q.1 == Spec(r.1.names, WithCanonical(r.1.views)) && NamesOk(r.1.names)
  {
    var names := if op.Create? || op.Write? then Named(s.names, op.block) else s.names;
    var b := IdOf(names, op.block);
    assert NamesOk(names);
    if b != CANONICAL {
      var prev := if op.Write? then PrevOf(names, op.prevBlock) else CANONICAL;
      var was := OpenView(s.views, b, prev)[b];
      var now := match op
        case Create(key, _) => CreateView(was, key).1
        case Write(key, val, prevVal, _, _) => WriteView(was, key, val, prevVal).1
        case _ => was;
      OpenAlike(s.views, b, prev);
      ChangeAlike(OpenView(s.views, b, prev), b, now);
    }
    hide OpenView, CreateView, WriteView, JustifiedViews, WithCanonical;
  }

  /** It makes no difference to an answer or a reading whether an empty canonical block is there. */
  lemma EventAbsent(s: Spec, e: Event)
    requires NamesOk(s.names) && s.names.next < 65536
    ensures var r, q := EventSpec(s, e), EventSpec(Spec(s.names, WithCanonical(s.views)), e);
            q.0 == r.0 && q.1 == Spec(r.1.names, WithCanonical(r.1.views)) && NamesOk(r.1.names)
  {
    match e
    case Do(op) => AbsentIsEmpty(s, op);
    case Finalize(block) =>
      hide OpenView, WithCanonical;
      if IdOf(s.names, block) != CANONICAL {
        OpenAlike(s.views, IdOf(s.names, block), CANONICAL);
      }
  }

  lemma {:induction false} AbsentRun(s: Spec, es: seq<Event>)
    requires NamesOk(s.names)
    ensures var r, q := EventSpecRun(s, es), EventSpecRun(Spec(s.names, WithCanonical(s.views)), es);
            && (q.Some? <==> r.Some?)
            && (r.Some? ==>
                     q.value.0 == r.value.0 && q.value.1 == Spec(r.value.1.names, WithCanonical(r.value.1.views)))
    decreases |es|
  {
    if es != [] && s.names.next < 65536 {
      EventAbsent(s, es[0]);
      hide EventSpec, WithCanonical, NamesOk;
      AbsentRun(EventSpec(s, es[0]).1, es[1..]);
    }
  }

  lemma EmptyRefines()
    ensures Refines(EMPTY_LEDGER, Spec(SPEC_START.names, WithCanonical(SPEC_START.views)))
  {
    var st := EMPTY_LEDGER.store;
    assert Good(st);
    forall b: BlockId, k: Hash
      ensures Lookup(st, RootId(b), k) == None
    {
      if b == CANONICAL {
        LookupStep(st, RootId(b), k);
      } else {
        AbsentReads(st, b, k);
      }
    }
  }

  lemma ReadsAlike(s: State, names: Names, views: map<BlockId, View>)
    requires Refines(s, Spec(names, WithCanonical(views)))
    ensures forall b: BlockId, k: Hash :: Lookup(s.store, RootId(b), k) == ReadBlock(views, b, k)
  {
    hide Lookup, Sound;
  }

  /** A new ledger with an empty database answers, and at the end reads, as the maps from nothing do. */
  method FreshRun(capacity: nat, es: seq<Event>, orders: seq<seq<Range>>, k: Settings, c: Crypto)
    returns (l: Ledger, codes: seq<Code>)
    requires ValidSettings(k, 8, c.w, c.v, c.s) && NonzeroHash(c)
    requires |orders| == |es| && forall i :: 0 <= i < |orders| ==> multiset(orders[i]) == multiset(BATCHES)
    requires EventsAllowed(c, EMPTY_LEDGER, es) && RunFits(c, EMPTY_LEDGER, es, capacity)
    ensures EventSpecRun(SPEC_START, es).Some? && codes == EventSpecRun(SPEC_START, es).value.0
    ensures forall b: BlockId, key: Hash ::
              Lookup(l.State().store, RootId(b), key) == ReadBlock(EventSpecRun(SPEC_START, es).value.1.views, b, key)
  {
    l := new Ledger(capacity);
    EmptyRefines();
    AbsentRun(SPEC_START, es);
    hide *;
    codes := PerformAll(l, es, orders, k, c, Spec(SPEC_START.names, WithCanonical(SPEC_START.views)));
    ReadsAlike(l.State(), l.State().names, EventSpecRun(SPEC_START, es).value.1.views);
  }
}

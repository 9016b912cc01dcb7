/** Every run of the ledger refines the map of views. */
module LedgerRuns {
  import opened Options
  import opened TrieTypes
  import opened Children
  import opened Trie
  import opened TrieOps
  import opened Isolation
  import opened Ownership
  import opened Pruning
  import opened Justifying
  import opened LedgerSpec

  // ---------- the relation ----------

  /** No node belongs to, or points to, an id that has not been handed out. */
  ghost predicate Tagged(st: Store, next: nat) {
    && (forall id :: id in st ==> id.blk < next)
    && (forall c: BlockId :: next <= c ==> Exclusive(st, c))
  }

  ghost predicate AllOwned(st: Store) {
    forall b: BlockId :: b != CANONICAL ==> Owned(st, b)
  }

  ghost predicate NamesOk(names: Names) {
    && names.next >= 1
    && forall h :: h in names.ids ==> 1 <= names.ids[h] < names.next
  }

  /** Reading a block that may not exist. */
  function ReadBlock(views: map<BlockId, View>, b: BlockId, k: Hash): (r: Option<seq<Hash>>) {
    if b in views then ReadView(views[b], k) else None
  }

  ghost predicate SameReads(st: Store, views: map<BlockId, View>) {
    && (forall b: BlockId :: RootId(b) in st <==> b in views)
    && (forall b: BlockId, k: Hash :: Lookup(st, RootId(b), k) == ReadBlock(views, b, k))
    && (forall b: BlockId, a :: b in views && a in views[b] ==> |a| == ACCOUNT_SIZE)
  }

  /** The store is sound. */
  ghost predicate Sound(st: Store, names: Names) {
    Good(st) && AllOwned(st) && NamesOk(names) && Tagged(st, names.next)
  }

  ghost predicate Refines(s: State, sp: Spec) {
    Sound(s.store, s.names) && s.names == sp.names && SameReads(s.store, sp.views)
  }

  // ---------- what a caller must respect ----------

  /** The root has an entry for every byte. */
  predicate FullRoot(st: Store, b: BlockId) {
    RootId(b) in st && st[RootId(b)].Branch? && |st[RootId(b)].children| == BRANCH_ORDER
  }

  /** An operation that keeps to the rules: a fresh id is available; no write under, and no pruning
      of, a block that others still build on; account prefixes of 13 bytes are distinct; slots are
      1 to 127; a block is justified only when no other is pending. */
  ghost predicate Allowed(s: State, op: Op) {
    && s.names.next < 65535
    && match op
       case Create(key, block) =>
         var b := IdOf(Named(s.names, block), block);
         Exclusive(s.store, b) && Separate(s.store, key)
       case Write(key, _, _, block, _) =>
         var b := IdOf(Named(s.names, block), block);
         Exclusive(s.store, b) && 0 < key[ACCOUNT_SIZE] < LEAF_ORDER
       case Justify(block) =>
         var b := IdOf(s.names, block);
         b != CANONICAL ==> Pending(s.store, [], b)
       case Prune(block) =>
         var b := IdOf(s.names, block);
         b != CANONICAL ==> Exclusive(s.store, b)
  }

  // ---------- opening a block ----------

  /** Opening touches root nodes only. */
  lemma RootsOnly(st: Store, b: BlockId, prev: BlockId, x: Byte)
    ensures AgreeBelow(st, GetRoot(st, b, prev), [x])
  {
    forall id: NodeId | [x] <= id.path ensures SameAt(st, GetRoot(st, b, prev), id) {
      assert id.path != [];
    }
  }

  lemma OpenedRoot(st: Store, b: BlockId, prev: BlockId)
    ensures var st' := GetRoot(st, b, prev);
            RootId(b) !in st ==> st'[RootId(b)] == if RootId(prev) in st then Recoded(st[RootId(prev)])
                else Branch(0, [])
    ensures forall c: BlockId :: c != b && c != prev ==> SameAt(st, GetRoot(st, b, prev), RootId(c))
    ensures RootId(prev) in st && prev != b ==> SameAt(st, GetRoot(st, b, prev), RootId(prev))
  {
    hide Recoded;
  }

  /** A full root comes back empty, any other as it was. */
  lemma RecodedRoot(st: Store, b: BlockId)
    requires Good(st) && RootId(b) in st
    ensures st[RootId(b)].Branch?
    ensures Recoded(st[RootId(b)]) == if FullRoot(st, b) then Branch(st[RootId(b)].commit, []) else st[RootId(b)]
  {
    assert NodeOk(st, RootId(b), st[RootId(b)]);
    var cs := st[RootId(b)].children;
    SortedCount(cs);
    assert cs[..|cs|] == cs && cs[..0] == [];
  }

  /** The copy has no entry that the root has not. */
  lemma RecodedEntries(n: Node)
    ensures n.Branch? ==> Recoded(n).Branch? && forall c :: c in Recoded(n).children ==> c in n.children
    ensures n.Leaf? ==> Recoded(n) == n
  {
  }

  /** A root that is the same node with the same subtrees reads the same. */
  lemma SameRootReads(st: Store, st': Store, c: BlockId, d: BlockId, k: Hash)
    requires RootId(c) in st && RootId(d) in st' && st[RootId(c)] == st'[RootId(d)] && st[RootId(c)].Branch?
    requires forall x: Byte :: AgreeBelow(st, st', [x])
    ensures Lookup(st, RootId(c), k) == Lookup(st', RootId(d), k)
  {
    LookupStep(st, RootId(c), k);
    LookupStep(st', RootId(d), k);
    var next := Next(st[RootId(c)].children, k[0]);
    if next.Some? {
      var child := NodeId([k[0]], next.value);
      assert Below(RootId(c), k[0], next.value) == child == Below(RootId(d), k[0], next.value);
      LookupAgree(st, st', child, k);
    }
  }

  /** Opening a block makes it read as its predecessor, or nothing if that one's root is full, and changes
      no other reading. */
  lemma OpenReads(st: Store, b: BlockId, prev: BlockId, c: BlockId, k: Hash)
    requires Good(st)
    ensures Lookup(GetRoot(st, b, prev), RootId(c), k)
         == if c == b && RootId(b) !in st then (if FullRoot(st, prev) then None else Lookup(st, RootId(prev), k))
            else Lookup(st, RootId(c), k)
  {
    var st' := GetRoot(st, b, prev);
    forall x: Byte ensures AgreeBelow(st, st', [x]) { RootsOnly(st, b, prev, x); }
    OpenedRoot(st, b, prev);
    if RootId(b) !in st {
      if c == b || c == prev {
        if RootId(prev) in st {
          RecodedRoot(st, prev);
          if c == b && FullRoot(st, prev) {
            EmptyReads(st', b, k);
          } else {
            SameRootReads(st, st', prev, c, k);
          }
        }
      } else if RootId(c) in st {
        assert NodeOk(st, RootId(c), st[RootId(c)]);
        SameRootReads(st, st', c, c, k);
      }
    }
  }

  /** So a new block reads as its predecessor if and only if that one's root is not full. */
  lemma OpenCopiesIff(st: Store, b: BlockId, prev: BlockId)
    requires Good(st) && RootId(b) !in st
    ensures (forall k :: Lookup(GetRoot(st, b, prev), RootId(b), k) == Lookup(st, RootId(prev), k)) <==>
            !FullRoot(st, prev)
  {
    forall k: Hash
      ensures Lookup(GetRoot(st, b, prev), RootId(b), k) == if FullRoot(st, prev) then None
              else Lookup(st, RootId(prev), k)
    {
      OpenReads(st, b, prev, b, k);
    }
    if FullRoot(st, prev) {
      var k := SomeAccount(st, RootId(prev));
    }
  }

  lemma OpenSound(st: Store, names: Names, b: BlockId, prev: BlockId)
    requires Sound(st, names) && b < names.next && prev < names.next
    ensures Sound(GetRoot(st, b, prev), names)
  {
    var st' := GetRoot(st, b, prev);
    OpenedRoot(st, b, prev);
    assert Good(st') by { OpenGood(st, b, prev); }
    forall c: BlockId | c != CANONICAL ensures Owned(st', c) { OpenOwned(st, b, prev, c); }
    forall c: BlockId | names.next <= c ensures Exclusive(st', c) { OpenExclusive(st, b, prev, c); }
  }

  lemma OpenGood(st: Store, b: BlockId, prev: BlockId)
    requires Good(st)
    ensures Good(GetRoot(st, b, prev))
  {
    OpenedRoot(st, b, prev);
    if RootId(b) !in st {
      if RootId(prev) in st {
        RecodedRoot(st, prev);
        assert NodeOk(st, RootId(prev), st[RootId(prev)]);
        GoodSet(st, st, RootId(b), Recoded(st[RootId(prev)]));
      } else {
        var st1 := st[RootId(prev) := Branch(0, [])];
        GoodSet(st, st, RootId(prev), Branch(0, []));
        GoodSet(st1, st1, RootId(b), Branch(0, []));
      }
    }
  }

  lemma OpenOwned(st: Store, b: BlockId, prev: BlockId, c: BlockId)
    requires Owned(st, c)
    ensures Owned(GetRoot(st, b, prev), c)
  {
    var st' := GetRoot(st, b, prev);
    forall id | id in st' && id.blk == c && [] < id.path ensures OwnedAt(st', id.path, c) {
      assert id in st;
      assert OwnedAt(st, id.path, c);
    }
  }

  /** A root is full exactly when its view is. */
  lemma FullIff(st: Store, views: map<BlockId, View>, b: BlockId)
    requires Good(st) && SameReads(st, views) && RootId(b) in st
    ensures FullRoot(st, b) <==> FullView(views[b])
  {
    assert NodeOk(st, RootId(b), st[RootId(b)]);
    var cs := st[RootId(b)].children;
    FullCount(cs);
    hide Entry, Starts;
    forall x: Byte
      ensures Entry(cs, x).Some? <==> Starts(views[b], x)
    {
      ByteIff(st, views, b, x);
    }
  }

  lemma ByteIff(st: Store, views: map<BlockId, View>, b: BlockId, x: Byte)
    requires Good(st) && SameReads(st, views) && RootId(b) in st && st[RootId(b)].Branch?
    ensures Entry(st[RootId(b)].children, x).Some? <==> Starts(views[b], x)
  {
    var root := RootId(b);
    assert NodeOk(st, root, st[root]);
    var cs := st[root].children;
    NextOk(st, root, cs, x);
    if Entry(cs, x).Some? {
      var child := Below(root, x, Next(cs, x).value);
      assert NodeOk(st, child, st[child]);
      var k := SomeAccount(st, child);
      assert k[0] == child.path[0] == x;
      LookupStep(st, root, k);
      assert Lookup(st, root, k) == ReadBlock(views, b, k);
      assert Account(k)[0] == x;
    }
    if Starts(views[b], x) {
      var a :| a in views[b] && a != [] && a[0] == x;
      var k := KeyReads(st, views, b, a);
      LookupStep(st, root, k);
    }
  }

  /** The views after opening. */
  lemma OpenRefines(st: Store, views: map<BlockId, View>, b: BlockId, prev: BlockId)
    requires Good(st) && SameReads(st, views)
    ensures SameReads(GetRoot(st, b, prev), OpenView(views, b, prev))
  {
    var st', views' := GetRoot(st, b, prev), OpenView(views, b, prev);
    if RootId(prev) in st {
      FullIff(st, views, prev);
    }
    forall c: BlockId, k: Hash ensures Lookup(st', RootId(c), k) == ReadBlock(views', c, k) {
      OpenReads(st, b, prev, c, k);
    }
  }

  lemma OpenExclusive(st: Store, b: BlockId, prev: BlockId, c: BlockId)
    requires Exclusive(st, c) && (c == b || c != prev)
    ensures Exclusive(GetRoot(st, b, prev), c)
  {
    OpenedRoot(st, b, prev);
    if RootId(prev) in st {
      RecodedEntries(st[RootId(prev)]);
    }
  }

  // ---------- writing ----------

  lemma SlotWritten(v: View, key: Hash, slots: seq<Hash>, k: Hash)
    ensures ReadView(v[Account(key) := slots], k) == if Account(k) == Account(key) then Some(slots) else ReadView(v, k)
  {
  }

  /** A successful write under b, seen from every block. */
  lemma WriteReads(st: Store, st': Store, views: map<BlockId, View>, b: BlockId, key: Hash, slots: seq<Hash>)
    requires SameReads(st, views) && RootId(b) in st
    requires Confined(st, st', [], b) && Exclusive(st, b) && RootId(b) in st'
    requires forall k: Hash :: Lookup(st', RootId(b), k) == if Account(k) == Account(key) then Some(slots)
             else Lookup(st, RootId(b), k)
    ensures SameReads(st', views[b := views[b][Account(key) := slots]])
  {
    var v := views[b][Account(key) := slots];
    var views' := views[b := v];
    ConfinedOutside(st, st', [], b);
    forall c: BlockId ensures RootId(c) in st' <==> c in views' {
      if c != b { assert SameAt(st, st', RootId(c)); }
    }
    forall c: BlockId, k: Hash ensures Lookup(st', RootId(c), k) == ReadBlock(views', c, k) {
      if c == b {
        SlotWritten(views[b], key, slots, k);
        assert Lookup(st, RootId(b), k) == ReadBlock(views, b, k);
      } else {
        OthersUndisturbed(st, st', b, RootId(c), k);
      }
    }
  }

  lemma OthersOwned(st: Store, st': Store, b: BlockId, c: BlockId)
    requires SameOutside(st, st', b) && Owned(st, c) && b != c
    ensures Owned(st', c)
  {
    forall id | id in st' && id.blk == c && [] < id.path ensures OwnedAt(st', id.path, c) {
      assert SameAt(st, st', id);
      assert OwnedAt(st, id.path, c);
      assert SameAt(st, st', NodeId(id.path[..|id.path| - 1], c));
    }
  }

  lemma TagsConfined(st: Store, st': Store, b: BlockId, next: nat)
    requires Confined(st, st', [], b) && b < next && forall id :: id in st ==> id.blk < next
    ensures forall id :: id in st' ==> id.blk < next
  {
  }

  lemma SoundAfter(st: Store, st': Store, names: Names, b: BlockId)
    requires Sound(st, names) && CANONICAL < b < names.next
    requires Good(st') && Confined(st, st', [], b) && Owned(st', b)
    requires forall c: BlockId :: names.next <= c ==> Exclusive(st', c)
    ensures Sound(st', names)
  {
    ConfinedOutside(st, st', [], b);
    TagsConfined(st, st', b, names.next);
    hide Confined, Good, Exclusive, Owned, SameOutside;
    forall c: BlockId | c != CANONICAL ensures Owned(st', c) {
      if c != b { OthersOwned(st, st', b, c); }
    }
  }

  lemma ReplaceSound(st: Store, names: Names, b: BlockId, key: Hash, val: Hash, prevVal: Option<Hash>)
    requires Sound(st, names) && RootId(b) in st && CANONICAL < b < names.next
    requires ReplaceAt(st, RootId(b), key, val, prevVal, b).0 == Ok
    ensures var st' := ReplaceAt(st, RootId(b), key, val, prevVal, b).1;
            Sound(st', names) && Confined(st, st', [], b) && RootId(b) in st'
  {
    var st' := ReplaceAt(st, RootId(b), key, val, prevVal, b).1;
    assert Owned(st, b);
    hide Confined, Good, Exclusive, SameOutside, OwnedBelow, ReplaceAt;
    ReplaceConfined(st, RootId(b), key, val, prevVal, b);
    ReplaceOwned(st, RootId(b), key, val, prevVal, b);
    forall c: BlockId | names.next <= c ensures Exclusive(st', c) {
      ReplaceExclusive(st, RootId(b), key, val, prevVal, b, c);
    }
    SoundAfter(st, st', names, b);
  }

  lemma CreateSound(st: Store, names: Names, b: BlockId, key: Hash)
    requires Sound(st, names) && RootId(b) in st && CANONICAL < b < names.next && Separate(st, key)
    requires CreateAt(st, RootId(b), key, b).0 == Ok
    ensures var st' := CreateAt(st, RootId(b), key, b).1;
            Sound(st', names) && Confined(st, st', [], b) && RootId(b) in st'
  {
    var st' := CreateAt(st, RootId(b), key, b).1;
    assert Owned(st, b);
    hide Confined, Good, Exclusive, SameOutside, OwnedBelow, CreateAt;
    CreateConfined(st, RootId(b), key, b);
    CreateOwned(st, RootId(b), key, b);
    forall c: BlockId | names.next <= c ensures Exclusive(st', c) {
      CreateExclusive(st, RootId(b), key, b, c);
    }
    SoundAfter(st, st', names, b);
  }

  lemma SameView(views: map<BlockId, View>, b: BlockId)
    requires b in views
    ensures views[b := views[b]] == views
  {
  }

  /** put and replace on an open block. */
  lemma WriteRefines(st: Store, names: Names, views: map<BlockId, View>, b: BlockId, key: Hash, val: Hash,
                     prevVal: Option<Hash>)
    requires Sound(st, names) && SameReads(st, views) && RootId(b) in st && CANONICAL < b < names.next
    requires Exclusive(st, b) && key[ACCOUNT_SIZE] != 0
    ensures var r, w := ReplaceAt(st, RootId(b), key, val, prevVal, b), WriteView(views[b], key, val, prevVal);
            r.0 == w.0 && Sound(r.1, names) && SameReads(r.1, views[b := w.1])
  {
    ReplaceResult(st, RootId(b), key, val, prevVal, b);
    ReplaceRefused(st, RootId(b), key, val, prevVal, b);
    SameView(views, b);
    assert Lookup(st, RootId(b), key) == ReadBlock(views, b, key);
    if ReplaceAt(st, RootId(b), key, val, prevVal, b).0 == Ok {
      var st', slots := ReplaceAt(st, RootId(b), key, val, prevVal, b).1,
          SetSlot(views[b][Account(key)], key[ACCOUNT_SIZE], val);
      ReplaceSound(st, names, b, key, val, prevVal);
      forall k: Hash
        ensures Lookup(st', RootId(b), k) == if Account(k) == Account(key) then Some(slots)
                else Lookup(st, RootId(b), k)
      {
        ReplaceReads(st, RootId(b), key, val, prevVal, b, k);
      }
      WriteReads(st, st', views, b, key, slots);
    }
  }

  /** create_account on an open block. */
  lemma CreateRefines(st: Store, names: Names, views: map<BlockId, View>, b: BlockId, key: Hash)
    requires Sound(st, names) && SameReads(st, views) && RootId(b) in st && CANONICAL < b < names.next
    requires Exclusive(st, b) && Separate(st, key)
    ensures var r, w := CreateAt(st, RootId(b), key, b), CreateView(views[b], key);
            r.0 == w.0 && Sound(r.1, names) && SameReads(r.1, views[b := w.1])
  {
    CreateResult(st, RootId(b), key, b);
    CreateRefused(st, RootId(b), key, b);
    SameView(views, b);
    assert Lookup(st, RootId(b), key) == ReadBlock(views, b, key);
    if CreateAt(st, RootId(b), key, b).0 == Ok {
      var st', slots := CreateAt(st, RootId(b), key, b).1, FreshSlots(key[ACCOUNT_SIZE := 0]);
      CreateSound(st, names, b, key);
      forall k: Hash
        ensures Lookup(st', RootId(b), k) == if Account(k) == Account(key) then Some(slots)
                else Lookup(st, RootId(b), k)
      {
        CreateReads(st, RootId(b), key, b, k);
      }
      WriteReads(st, st', views, b, key, slots);
    }
  }

  // ---------- pruning and justifying ----------

  lemma PruneRefines(st: Store, names: Names, views: map<BlockId, View>, b: BlockId)
    requires Sound(st, names) && SameReads(st, views) && RootId(b) in st && b != CANONICAL && Exclusive(st, b)
    ensures var st' := PruneAt(st, RootId(b), b);
            Sound(st', names) && SameReads(st', views - {b})
  {
    var st' := PruneAt(st, RootId(b), b);
    assert Owned(st, b);
    PruneBlock(st, b);
    hide PruneAt, Good, Exclusive, Owned, Lookup, SameReads;
    PrunedSound(st, st', names, b);
    PrunedReads(st, st', views, b);
  }

  lemma PrunedSound(st: Store, st': Store, names: Names, b: BlockId)
    requires Sound(st, names) && Good(st')
    requires forall id :: id in st' <==> id in st && id.blk != b
    requires forall id :: id in st' ==> st'[id] == st[id]
    ensures Sound(st', names)
  {
    hide Good, Owned;
    forall c: BlockId | c != CANONICAL ensures Owned(st', c) {
      PrunedOwned(st, st', b, c);
    }
    forall c: BlockId | names.next <= c ensures Exclusive(st', c) {
      assert Exclusive(st, c);
    }
  }

  lemma PrunedReads(st: Store, st': Store, views: map<BlockId, View>, b: BlockId)
    requires SameReads(st, views) && forall id :: id in st' <==> id in st && id.blk != b
    requires forall c, k :: c != b ==> Lookup(st', RootId(c), k) == Lookup(st, RootId(c), k)
    ensures SameReads(st', views - {b})
  {
    hide Lookup;
    forall c: BlockId, k: Hash ensures Lookup(st', RootId(c), k) == ReadBlock(views - {b}, c, k) {
      if c == b {
        AbsentReads(st', b, k);
      } else {
        assert Lookup(st, RootId(c), k) == ReadBlock(views, c, k);
      }
    }
  }

  lemma AbsentReads(st: Store, b: BlockId, k: Hash)
    requires RootId(b) !in st
    ensures Lookup(st, RootId(b), k) == None
  {
  }

  lemma PrunedOwned(st: Store, st': Store, b: BlockId, c: BlockId)
    requires Owned(st, c)
    requires forall id :: id in st' <==> id in st && id.blk != b
    requires forall id :: id in st' ==> st'[id] == st[id]
    ensures Owned(st', c)
  {
    forall id | id in st' && id.blk == c && [] < id.path ensures OwnedAt(st', id.path, c) {
      assert OwnedAt(st, id.path, c);
    }
  }

  lemma OpenPending(st: Store, b: BlockId)
    requires Pending(st, [], b) && b != CANONICAL
    ensures Pending(GetRoot(st, b, CANONICAL), [], b)
  {
    var st' := GetRoot(st, b, CANONICAL);
    OpenedRoot(st, b, CANONICAL);
    if RootId(CANONICAL) in st {
      RecodedEntries(st[RootId(CANONICAL)]);
    }
    forall id | id in st' && [] <= id.path
      ensures (id.blk == CANONICAL || id.blk == b) && OnlyTwo(st'[id], b) &&
              (id.blk == CANONICAL ==> OnlyCanonical(st'[id]))
    {
      if id in st {
        assert st'[id] == st[id];
      } else if RootId(CANONICAL) in st {
        assert [] <= RootId(CANONICAL).path;
        assert OnlyCanonical(st[RootId(CANONICAL)]);
      }
    }
  }

  /** A view is empty exactly when the root is. */
  lemma EmptyView(st: Store, views: map<BlockId, View>, b: BlockId)
    requires Good(st) && SameReads(st, views) && RootId(b) in st
    ensures EmptyRoot(st, b) <==> views[b] == map[]
  {
    assert NodeOk(st, RootId(b), st[RootId(b)]);
    if EmptyRoot(st, b) {
      forall a | a in views[b] ensures false {
        var k := KeyReads(st, views, b, a);
        EmptyReads(st, b, k);
      }
    } else {
      var k := SomeAccount(st, RootId(b));
      assert Lookup(st, RootId(b), k) == ReadBlock(views, b, k);
    }
  }

  lemma KeyReads(st: Store, views: map<BlockId, View>, b: BlockId, a: seq<Byte>) returns (k: Hash)
    requires SameReads(st, views) && b in views && a in views[b]
    ensures Lookup(st, RootId(b), k).Some? && Account(k) == a && (a != [] ==> k[0] == a[0])
  {
    k := a + [0];
    assert Account(k) == a;
    assert Lookup(st, RootId(b), k) == ReadBlock(views, b, k);
  }

  lemma JustifyRefines(st: Store, names: Names, views: map<BlockId, View>, b: BlockId)
    requires Sound(st, names) && SameReads(st, views) && RootId(b) in st && b != CANONICAL && Pending(st, [], b)
    ensures var (rc, st') := JustifyAt(st, RootId(b), b);
            rc in {Ok, Deleted} && Sound(st', names) && SameReads(st', JustifiedViews(views, b))
  {
    var st' := JustifyAt(st, RootId(b), b).1;
    assert Owned(st, b);
    JustifyBlock(st, b);
    EmptyView(st, views, b);
    JustifyRoot(st, b);
    hide JustifyAt, Good, Lookup, SameReads, EmptyRoot, Owned, Pending;
    CanonicalSound(st', names);
    if views[b] == map[] {
      JustifiedNothing(st, views, b);
    } else {
      JustifiedReads(st, st', views, b);
    }
  }

  lemma JustifiedReads(st: Store, st': Store, views: map<BlockId, View>, b: BlockId)
    requires SameReads(st, views) && RootId(b) in st && views[b] != map[] && forall id :: id in st' ==>
             id.blk == CANONICAL
    requires forall k :: Lookup(st', RootId(CANONICAL), k) == Lookup(st, RootId(b), k)
    requires RootId(CANONICAL) in st'
    ensures SameReads(st', map[CANONICAL := views[b]])
  {
    var views' := map[CANONICAL := views[b]];
    hide Lookup;
    forall c: BlockId, k: Hash ensures Lookup(st', RootId(c), k) == ReadBlock(views', c, k) {
      assert Lookup(st, RootId(b), k) == ReadBlock(views, b, k);
      if RootId(c) !in st' {
        AbsentReads(st', c, k);
      }
    }
  }

  lemma RootsLeft(st: Store, views: map<BlockId, View>, b: BlockId)
    requires b in views && b != CANONICAL && views[b] == map[] && Pending(st, [], b)
    requires forall c: BlockId :: RootId(c) in st <==> c in views
    ensures forall c: BlockId :: RootId(c) in st - {RootId(b)} <==> c in JustifiedViews(views, b)
  {
    forall c: BlockId | RootId(c) in st
      ensures c == CANONICAL || c == b
    {
      assert [] <= RootId(c).path;
    }
  }

  /** A block without accounts only goes. */
  lemma JustifiedNothing(st: Store, views: map<BlockId, View>, b: BlockId)
    requires Good(st) && Owned(st, b) && Pending(st, [], b) && RootId(b) in st && b != CANONICAL && EmptyRoot(st, b)
    requires SameReads(st, views) && views[b] == map[]
    ensures SameReads(JustifyAt(st, RootId(b), b).1, JustifiedViews(views, b))
  {
    hide JustifyAt, Owned, Pending, EmptyRoot, Good, Lookup;
    var st', views' := st - {RootId(b)}, JustifiedViews(views, b);
    JustifyEmpty(st, b);
    RootsLeft(st, views, b);
    forall c: BlockId, k: Hash ensures Lookup(st', RootId(c), k) == ReadBlock(views', c, k) {
      WithoutRoot(st, b, c, k);
      assert Lookup(st, RootId(c), k) == ReadBlock(views, c, k);
    }
  }

  /** Dropping a root changes no other block's reading. */
  lemma WithoutRoot(st: Store, b: BlockId, c: BlockId, k: Hash)
    requires Good(st)
    ensures Lookup(st - {RootId(b)}, RootId(c), k) == if c == b then None else Lookup(st, RootId(c), k)
  {
    var st' := st - {RootId(b)};
    forall x: Byte ensures AgreeBelow(st, st', [x]) {
      forall id: NodeId | [x] <= id.path ensures SameAt(st, st', id) {
        assert id.path != [];
      }
    }
    if RootId(c) in st' {
      assert NodeOk(st, RootId(c), st[RootId(c)]);
      SameRootReads(st, st', c, c, k);
    }
  }

  lemma JustifyRoot(st: Store, b: BlockId)
    requires Good(st) && Owned(st, b) && Pending(st, [], b) && RootId(b) in st && b != CANONICAL
    ensures RootId(CANONICAL) in JustifyAt(st, RootId(b), b).1 <==> !EmptyRoot(st, b) || RootId(CANONICAL) in st
  {
    assert NodeOk(st, RootId(b), st[RootId(b)]);
    assert GoodBelow(st, []);
    hide Good, GoodBelow, OwnedBelow, Pending, JustifyAt, Lookup, NodeOk;
    if EmptyRoot(st, b) {
      JustifyEmpty(st, b);
    } else {
      JustifyCorrect(st, RootId(b), b);
    }
  }

  lemma CanonicalSound(st: Store, names: Names)
    requires Good(st) && NamesOk(names) && forall id :: id in st ==> id.blk == CANONICAL && OnlyCanonical(st[id])
    ensures Sound(st, names)
  {
  }

  // ---------- runs ----------

  /** One operation within the rules: same answer, and the relation is kept. */
  lemma StepRefines(s: State, sp: Spec, op: Op)
    requires Refines(s, sp) && Allowed(s, op)
    ensures Step(s, op).0 == SpecStep(sp, op).0
    ensures Refines(Step(s, op).1, SpecStep(sp, op).1)
  {
    match op
    case Create(key, block) => StepCreate(s, sp, key, block);
    case Write(key, val, prevVal, block, prevBlock) => StepWrite(s, sp, key, val, prevVal, block, prevBlock);
    case Justify(block) => StepJustify(s, sp, block);
    case Prune(block) => StepPrune(s, sp, block);
  }

  lemma OwnedOf(st: Store, names: Names, b: BlockId)
    requires Sound(st, names) && b != CANONICAL
    ensures Owned(st, b)
  {
  }

  lemma NewNames(s: State, h: Hash)
    requires Sound(s.store, s.names) && s.names.next < 65535
    ensures var names := Named(s.names, h);
            Sound(s.store, names) && CANONICAL < IdOf(names, h) < names.next
  {
    hide Good, Owned, Exclusive;
  }

  lemma PrevInRange(names: Names, prev: Option<Hash>)
    requires NamesOk(names)
    ensures PrevOf(names, prev) < names.next
  {
  }

  lemma SeparateOpened(st: Store, b: BlockId, key: Hash)
    requires Good(st) && Separate(st, key)
    ensures Separate(GetRoot(st, b, CANONICAL), key[ACCOUNT_SIZE := 0])
    ensures Account(key[ACCOUNT_SIZE := 0]) == Account(key)
  {
    var st', z := GetRoot(st, b, CANONICAL), key[ACCOUNT_SIZE := 0];
    assert z[..ACCOUNT_SIZE] == key[..ACCOUNT_SIZE] && z[..PATH_SIZE] == key[..PATH_SIZE];
    OpenedRoot(st, b, CANONICAL);
    if RootId(CANONICAL) in st {
      assert NodeOk(st, RootId(CANONICAL), st[RootId(CANONICAL)]);
    }
    assert forall id :: id in st' && st'[id].Leaf? ==> id in st && st[id] == st'[id];
  }

  lemma CreateIs(s: State, sp: Spec, key: Hash, block: Hash)
    requires s.names == sp.names && s.names.next < 65536
    ensures var names := Named(s.names, block);
            var b := IdOf(names, block);
            var r := CreateAt(GetRoot(s.store, b, CANONICAL), RootId(b), key[ACCOUNT_SIZE := 0], b);
            var views := OpenView(sp.views, b, CANONICAL);
            var q := CreateView(views[b], key);
            && Step(s, Create(key, block)) == (r.0, State(names, r.1))
            && SpecStep(sp, Create(key, block)) == (q.0, Spec(names, views[b := q.1]))
  {
    hide CreateAt, GetRoot, OpenView, CreateView;
  }

  lemma SameCreate(v: View, key: Hash)
    ensures CreateView(v, key[ACCOUNT_SIZE := 0]) == CreateView(v, key)
  {
    var account := key[ACCOUNT_SIZE := 0];
    assert account[ACCOUNT_SIZE := 0] == account && Account(account) == Account(key);
    hide FreshSlots;
  }

  lemma StepCreate(s: State, sp: Spec, key: Hash, block: Hash)
    requires Refines(s, sp) && Allowed(s, Create(key, block))
    ensures Step(s, Create(key, block)).0 == SpecStep(sp, Create(key, block)).0
    ensures Refines(Step(s, Create(key, block)).1, SpecStep(sp, Create(key, block)).1)
  {
    var names := Named(s.names, block);
    var b := IdOf(names, block);
    NewNames(s, block);
    CreateIs(s, sp, key, block);
    SameCreate(OpenView(sp.views, b, CANONICAL)[b], key);
    hide Good, AllOwned, Tagged, SameReads, Exclusive, CreateAt, NamesOk, GetRoot, OpenView, Separate, CreateView, Step,
        SpecStep;
    OpenSound(s.store, names, b, CANONICAL);
    OpenRefines(s.store, sp.views, b, CANONICAL);
    OpenExclusive(s.store, b, CANONICAL, b);
    SeparateOpened(s.store, b, key);
    CreateRefines(GetRoot(s.store, b, CANONICAL), names, OpenView(sp.views, b, CANONICAL), b, key[ACCOUNT_SIZE := 0]);
  }

  lemma StepWrite(s: State, sp: Spec, key: Hash, val: Hash, prevVal: Option<Hash>, block: Hash, prevBlock: Option<Hash>)
    requires Refines(s, sp) && Allowed(s, Write(key, val, prevVal, block, prevBlock))
    ensures var op := Write(key, val, prevVal, block, prevBlock);
            Step(s, op).0 == SpecStep(sp, op).0 && Refines(Step(s, op).1, SpecStep(sp, op).1)
  {
    var names := Named(s.names, block);
    var b, prev := IdOf(names, block), PrevOf(names, prevBlock);
    NewNames(s, block);
    PrevInRange(names, prevBlock);
    hide Good, AllOwned, Tagged, SameReads, Exclusive, ReplaceAt, NamesOk;
    OpenSound(s.store, names, b, prev);
    OpenRefines(s.store, sp.views, b, prev);
    OpenExclusive(s.store, b, prev, b);
    WriteRefines(GetRoot(s.store, b, prev), names, OpenView(sp.views, b, prev), b, key, val, prevVal);
  }

  lemma JustifyIs(s: State, sp: Spec, block: Hash)
    requires s.names == sp.names && s.names.next < 65536 && IdOf(s.names, block) != CANONICAL
    ensures var b := IdOf(s.names, block);
            var r := JustifyAt(GetRoot(s.store, b, CANONICAL), RootId(b), b);
            && Step(s, Justify(block)) == (if r.0 == Deleted then Ok else r.0, State(s.names, r.1))
            && SpecStep(sp, Justify(block)) == (Ok, Spec(s.names, JustifiedViews(OpenView(sp.views, b, CANONICAL), b)))
  {
    hide JustifyAt, GetRoot, OpenView, JustifiedViews;
  }

  lemma StepJustify(s: State, sp: Spec, block: Hash)
    requires Refines(s, sp) && Allowed(s, Justify(block))
    ensures Step(s, Justify(block)).0 == SpecStep(sp, Justify(block)).0
    ensures Refines(Step(s, Justify(block)).1, SpecStep(sp, Justify(block)).1)
  {
    var b := IdOf(s.names, block);
    if b != CANONICAL {
      assert b < s.names.next;
      var st := GetRoot(s.store, b, CANONICAL);
      JustifyIs(s, sp, block);
      hide Good, AllOwned, Tagged, SameReads, JustifyAt, NamesOk, Pending, EmptyRoot, GetRoot, OpenView, JustifiedViews,
          Step, SpecStep;
      OpenSound(s.store, s.names, b, CANONICAL);
      OpenRefines(s.store, sp.views, b, CANONICAL);
      OpenPending(s.store, b);
      JustifyRefines(st, s.names, OpenView(sp.views, b, CANONICAL), b);
    }
  }

  lemma StepPrune(s: State, sp: Spec, block: Hash)
    requires Refines(s, sp) && Allowed(s, Prune(block))
    ensures Step(s, Prune(block)).0 == SpecStep(sp, Prune(block)).0
    ensures Refines(Step(s, Prune(block)).1, SpecStep(sp, Prune(block)).1)
  {
    var b := IdOf(s.names, block);
    if b != CANONICAL {
      assert b < s.names.next;
      var names := Names(s.names.ids - {block}, s.names.next);
      assert NamesOk(names);
      hide Good, AllOwned, Tagged, SameReads, PruneAt, Exclusive, NamesOk;
      OpenSound(s.store, s.names, b, CANONICAL);
      OpenRefines(s.store, sp.views, b, CANONICAL);
      OpenExclusive(s.store, b, CANONICAL, b);
      PruneRefines(GetRoot(s.store, b, CANONICAL), names, OpenView(sp.views, b, CANONICAL), b);
    }
  }

  /** The answers of a run, in order, and where it ends. */
  function Run(s: State, ops: seq<Op>): (r: Option<(seq<Code>, State)>)
    decreases |ops|
  {
    if ops == [] then Some(([], s))
    else if s.names.next >= 65536 then None
    else
      var (rc, s') := Step(s, ops[0]);
      match Run(s', ops[1..])
      case None => None
      case Some(rest) => Some(([rc] + rest.0, rest.1))
  }

  ghost function SpecRun(s: Spec, ops: seq<Op>): (r: Option<(seq<Code>, Spec)>)
    decreases |ops|
  {
    if ops == [] then Some(([], s))
    else if s.names.next >= 65536 then None
    else
      var (rc, s') := SpecStep(s, ops[0]);
      match SpecRun(s', ops[1..])
      case None => None
      case Some(rest) => Some(([rc] + rest.0, rest.1))
  }

  /** Every operation of the run keeps to the rules when its turn comes. */
  ghost predicate RunAllowed(s: State, ops: seq<Op>)
    decreases |ops|
  {
    ops == [] || (Allowed(s, ops[0]) && RunAllowed(Step(s, ops[0]).1, ops[1..]))
  }

  /** Main theorem: along every run within the rules the code answers as the maps do, and every block
      reads as its map. */
  lemma {:induction false} RunRefines(s: State, sp: Spec, ops: seq<Op>)
    requires Refines(s, sp) && RunAllowed(s, ops)
    ensures Run(s, ops).Some? && SpecRun(sp, ops).Some?
    ensures Run(s, ops).value.0 == SpecRun(sp, ops).value.0
    ensures Refines(Run(s, ops).value.1, SpecRun(sp, ops).value.1)
    decreases |ops|
  {
    if ops != [] {
      StepRefines(s, sp, ops[0]);
      hide Refines, Allowed, Step, SpecStep;
      RunRefines(Step(s, ops[0]).1, SpecStep(sp, ops[0]).1, ops[1..]);
    }
  }

  const START: State := State(Names(map[], 1), map[])
  const SPEC_START: Spec := Spec(Names(map[], 1), map[])

  /** A new ledger refines no views. */
  lemma StartRefines()
    ensures Refines(START, SPEC_START)
  {
    forall b: BlockId, k: Hash ensures Lookup(START.store, RootId(b), k) == None {
      AbsentReads(START.store, b, k);
    }
  }

  // ---------- which blocks may be written ----------

  /** The operation opens a new block on top of c. */
  predicate BuildsOn(s: State, op: Op, c: BlockId)
    requires s.names.next < 65536
  {
    && op.Write?
    && var names := Named(s.names, op.block);
       var b := IdOf(names, op.block);
       RootId(b) !in s.store && PrevOf(names, op.prevBlock) == c && b != c
  }

  /** A block stays open for writing until another is built on it. */
  lemma StaysExclusive(s: State, op: Op, c: BlockId)
    requires Sound(s.store, s.names) && Allowed(s, op) && c != CANONICAL
    requires Exclusive(s.store, c) && !BuildsOn(s, op, c)
    ensures Exclusive(Step(s, op).1.store, c)
  {
    match op
    case Create(key, block) =>
      NewNames(s, block);
      hide Exclusive, Good, AllOwned, Tagged;
      var names := Named(s.names, block);
      var b := IdOf(names, block);
      OpenGood(s.store, b, CANONICAL);
      OpenExclusive(s.store, b, CANONICAL, c);
      SeparateOpened(s.store, b, key);
      CreateKeeps(GetRoot(s.store, b, CANONICAL), b, key[ACCOUNT_SIZE := 0], c);
    case Write(key, val, prevVal, block, prevBlock) =>
      NewNames(s, block);
      hide Exclusive, Good, AllOwned, Tagged;
      var names := Named(s.names, block);
      var b, prev := IdOf(names, block), PrevOf(names, prevBlock);
      OpenGood(s.store, b, prev);
      OpenStays(s.store, b, prev, c);
      ReplaceKeeps(GetRoot(s.store, b, prev), b, key, val, prevVal, c);
    case Justify(block) =>
      JustifyKeeps(s, block, c);
    case Prune(block) =>
      PruneKeeps(s, block, c);
  }

  lemma OpenStays(st: Store, b: BlockId, prev: BlockId, c: BlockId)
    requires Exclusive(st, c) && !(RootId(b) !in st && prev == c && b != c)
    ensures Exclusive(GetRoot(st, b, prev), c)
  {
    if RootId(b) !in st {
      OpenExclusive(st, b, prev, c);
    }
  }

  lemma CreateKeeps(st: Store, b: BlockId, key: Hash, c: BlockId)
    requires Good(st) && Exclusive(st, c) && RootId(b) in st && Separate(st, key)
    ensures Exclusive(CreateAt(st, RootId(b), key, b).1, c)
  {
    hide Good, Exclusive, CreateAt;
    var r := CreateAt(st, RootId(b), key, b);
    if b != c {
      CreateExclusive(st, RootId(b), key, b, c);
    } else if r.0 == Ok {
      CreateConfined(st, RootId(b), key, b);
      ConfinedOutside(st, r.1, [], b);
      ExclusiveSelf(st, r.1, b);
    } else {
      CreateRefused(st, RootId(b), key, b);
    }
  }

  lemma ReplaceKeeps(st: Store, b: BlockId, key: Hash, val: Hash, prevVal: Option<Hash>, c: BlockId)
    requires Good(st) && Exclusive(st, c) && RootId(b) in st
    ensures Exclusive(ReplaceAt(st, RootId(b), key, val, prevVal, b).1, c)
  {
    hide Good, Exclusive, ReplaceAt;
    var r := ReplaceAt(st, RootId(b), key, val, prevVal, b);
    if b != c {
      ReplaceExclusive(st, RootId(b), key, val, prevVal, b, c);
    } else if r.0 == Ok {
      ReplaceConfined(st, RootId(b), key, val, prevVal, b);
      ConfinedOutside(st, r.1, [], b);
      ExclusiveSelf(st, r.1, b);
    } else {
      ReplaceRefused(st, RootId(b), key, val, prevVal, b);
    }
  }

  lemma JustifyKeeps(s: State, block: Hash, c: BlockId)
    requires Sound(s.store, s.names) && Allowed(s, Justify(block)) && c != CANONICAL && Exclusive(s.store, c)
    ensures Exclusive(Step(s, Justify(block)).1.store, c)
  {
    hide Good, Owned, Pending, JustifyAt, Exclusive, AllOwned, Tagged, NamesOk, Lookup, GetRoot;
    var b := IdOf(s.names, block);
    if b != CANONICAL {
      OwnedOf(s.store, s.names, b);
      OpenGood(s.store, b, CANONICAL);
      OpenOwned(s.store, b, CANONICAL, b);
      OpenPending(s.store, b);
      JustifiedExclusive(GetRoot(s.store, b, CANONICAL), b, c);
    }
  }

  lemma JustifiedExclusive(st: Store, b: BlockId, c: BlockId)
    requires Good(st) && Owned(st, b) && Pending(st, [], b) && RootId(b) in st && b != CANONICAL && c != CANONICAL
    ensures Exclusive(JustifyAt(st, RootId(b), b).1, c)
  {
    hide Good, Owned, Pending, JustifyAt, Lookup;
    JustifyBlock(st, b);
    OnlyCanonicalExclusive(JustifyAt(st, RootId(b), b).1, c);
  }

  lemma OnlyCanonicalExclusive(st: Store, c: BlockId)
    requires c != CANONICAL && forall id :: id in st ==> id.blk == CANONICAL && OnlyCanonical(st[id])
    ensures Exclusive(st, c)
  {
  }

  lemma PruneKeeps(s: State, block: Hash, c: BlockId)
    requires Sound(s.store, s.names) && Allowed(s, Prune(block)) && c != CANONICAL && Exclusive(s.store, c)
    ensures Exclusive(Step(s, Prune(block)).1.store, c)
  {
    var b := IdOf(s.names, block);
    if b != CANONICAL {
      var st := GetRoot(s.store, b, CANONICAL);
      assert Owned(s.store, b);
      OpenGood(s.store, b, CANONICAL);
      OpenOwned(s.store, b, CANONICAL, b);
      OpenExclusive(s.store, b, CANONICAL, b);
      OpenExclusive(s.store, b, CANONICAL, c);
      hide Good, Owned, PruneAt;
      PruneBlock(st, b);
    }
  }

  // ---------- a justified block as predecessor ----------

  /** A justified block keeps its id while its root is gone. */
  lemma JustifiedStaysNamed(s: State, sp: Spec, block: Hash)
    requires Refines(s, sp) && Allowed(s, Justify(block)) && IdOf(s.names, block) != CANONICAL
    ensures var s1 := Step(s, Justify(block)).1;
            s1.names == s.names && IdOf(s1.names, block) != CANONICAL && RootId(IdOf(s1.names, block)) !in s1.store
  {
    StepRefines(s, sp, Justify(block));
    var b := IdOf(s.names, block);
    var views := OpenView(sp.views, b, CANONICAL);
    assert SameReads(Step(s, Justify(block)).1.store, JustifiedViews(views, b));
    assert b !in JustifiedViews(views, b);
  }

  /** So a block opened on it starts empty, not as canonical does. */
  lemma OpenedOnJustified(s: State, sp: Spec, block: Hash, next: Hash, key: Hash, val: Hash, prevVal: Option<Hash>)
    requires Refines(s, sp) && Allowed(s, Justify(block)) && IdOf(s.names, block) != CANONICAL && next !in s.names.ids
    ensures var s1 := Step(s, Justify(block)).1;
            var r := Step(s1, Write(key, val, prevVal, next, Some(block)));
            r.0 == NotExist && forall k :: Lookup(r.1.store, RootId(IdOf(r.1.names, next)), k) == None
  {
    JustifiedStaysNamed(s, sp, block);
    StepRefines(s, sp, Justify(block));
    var s1 := Step(s, Justify(block)).1;
    assert Tagged(s1.store, s1.names.next);
    hide Step, Refines, Allowed, Tagged;
    OpenedEmpty(s1, block, next, key, val, prevVal);
  }

  lemma OpenedEmpty(s: State, block: Hash, next: Hash, key: Hash, val: Hash, prevVal: Option<Hash>)
    requires s.names.next < 65535 && Tagged(s.store, s.names.next) && NamesOk(s.names)
    requires block in s.names.ids && RootId(s.names.ids[block]) !in s.store && next !in s.names.ids
    ensures var r := Step(s, Write(key, val, prevVal, next, Some(block)));
            r.0 == NotExist && forall k :: Lookup(r.1.store, RootId(IdOf(r.1.names, next)), k) == None
  {
    var b, prev := s.names.next, s.names.ids[block];
    assert RootId(b) !in s.store;
    var st := GetRoot(s.store, b, prev);
    assert st[RootId(b)] == Branch(0, []);
    assert ReplaceAt(st, RootId(b), key, val, prevVal, b) == (NotExist, st);
  }
}

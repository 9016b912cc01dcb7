/** What a write under b does to a block that was built on b: exactly when isolation fails.

    A block built on b holds entries that lead to b's own nodes. Those nodes are changed in place by
    later writes under b, so the other block sees such a write if, and only if, its descent to the
    written account passes through a node of b.
 */
module Sharing {
  import opened Options
  import opened TrieTypes
  import opened Children
  import opened Trie
  import opened TrieOps
  import opened Ownership

  /** The descent from `id` to the account of the key meets a node of b. */
  predicate Visits(st: Store, id: NodeId, key: Hash, b: BlockId)
    decreases ACCOUNT_SIZE - |id.path|
  {
    if id !in st || |id.path| >= ACCOUNT_SIZE then false
    else if id.blk == b then true
    else if st[id].Leaf? then false
    else
      match Next(st[id].children, key[|id.path|])
      case None => false
      case Some(c) => Visits(st, Below(id, key[|id.path|], c), key, b)
  }

  /** From this node everything reads as before. */
  ghost predicate SameReadings(st: Store, st': Store, id: NodeId) {
    forall k: Hash :: Lookup(st', id, k) == Lookup(st, id, k)
  }

  /** Only nodes of b on the way to the key change. */
  lemma {:induction false} ReplaceOnPath(st: Store, id: NodeId, key: Hash, val: Hash, prev: Option<Hash>, b: BlockId,
                                         i: NodeId)
    requires id.path <= key && !(i.blk == b && i.path <= key)
    ensures SameAt(st, ReplaceAt(st, id, key, val, prev, b).1, i)
    decreases ACCOUNT_SIZE - |id.path|
  {
    if id in st && |id.path| < ACCOUNT_SIZE && st[id].Branch? {
      var nib := key[|id.path|];
      var next := Next(st[id].children, nib);
      hide Next, Insert;
      PrefixStep(id.path, key);
      if next.Some? {
        ReplaceOnPath(st, Below(id, nib, next.value), key, val, prev, b, i);
      }
    }
  }

  /** The written store, read from any node of b on the way to the key. */
  lemma {:induction false} OwnReads(st: Store, id: NodeId, key: Hash, val: Hash, prev: Option<Hash>, b: BlockId,
                                    p: seq<Byte>, k: Hash)
    requires Good(st) && id in st && id.blk == b && OwnedBelow(st, id.path, b)
    requires ReplaceAt(st, id, key, val, prev, b).0 == Ok
    requires id.path <= p && p <= key && p <= k && NodeId(p, b) in st && |p| <= PATH_SIZE
    ensures var old_ := Lookup(st, id, key);
            && old_.Some? && key[ACCOUNT_SIZE] < |old_.value|
            && Lookup(ReplaceAt(st, id, key, val, prev, b).1, NodeId(p, b), k)
               == if Account(k) == Account(key) then Some(old_.value[key[ACCOUNT_SIZE] := val])
                   else Lookup(st, NodeId(p, b), k)
    decreases ACCOUNT_SIZE - |id.path|
  {
    hide Good, OwnedBelow, Lookup, ReplaceAt, Next, Insert, Account;
    PrefixTrans(id.path, p, key);
    PrefixTrans(id.path, p, k);
    if p == id.path {
      ReplaceReads(st, id, key, val, prev, b, k);
    } else {
      OwnedChain(st, id.path, p, b);
      var nib := key[|id.path|];
      assert p[|id.path|] == nib;
      ReplaceStep(st, id, key, val, prev, b, b);
      var c := Below(id, nib, b);
      var st1, n := ReplaceAt(st, c, key, val, prev, b).1, Branch(st[id].commit, Insert(st[id].children, nib, b));
      OwnedDeeper(st, id.path, c.path, b);
      assert c.path <= p;
      OwnReads(st, c, key, val, prev, b, p, k);
      SetAgree(st1, id.path, b, n, nib);
      AgreeDeeper(st1, st1[NodeId(id.path, b) := n], c.path, p);
      LookupAgree(st1, st1[NodeId(id.path, b) := n], NodeId(p, b), k);
    }
  }

  /** Exact effect of a write under b on every other reading. */
  lemma {:induction false} WriteSeenFrom(st: Store, id: NodeId, key: Hash, val: Hash, prev: Option<Hash>, b: BlockId,
                                         k: Hash)
    requires Good(st) && Owned(st, b) && RootId(b) in st
    requires ReplaceAt(st, RootId(b), key, val, prev, b).0 == Ok
    requires id in st && id.path <= k
    ensures var old_ := Lookup(st, RootId(b), key);
            && old_.Some? && key[ACCOUNT_SIZE] < |old_.value|
            && Lookup(ReplaceAt(st, RootId(b), key, val, prev, b).1, id, k)
               == if Account(k) == Account(key) && Visits(st, id, key, b)
                  then Some(old_.value[key[ACCOUNT_SIZE] := val])
                  else Lookup(st, id, k)
    decreases ACCOUNT_SIZE - |id.path|
  {
    var st' := ReplaceAt(st, RootId(b), key, val, prev, b).1;
    assert NodeOk(st, id, st[id]);
    OwnReads(st, RootId(b), key, val, prev, b, [], key);
    if id.blk == b {
      if id.path <= key {
        OwnReads(st, RootId(b), key, val, prev, b, id.path, k);
      } else {
        forall i: NodeId | id.path <= i.path ensures SameAt(st, st', i) {
          if i.path <= key {
            PrefixTrans(id.path, i.path, key);
          }
          ReplaceOnPath(st, RootId(b), key, val, prev, b, i);
        }
        LookupAgree(st, st', id, k);
        OffPath(id.path, key, k);
      }
    } else {
      ReplaceOnPath(st, RootId(b), key, val, prev, b, id);
      if st[id].Branch? {
        var nib := k[|id.path|];
        NextOk(st, id, st[id].children, nib);
        var next := Next(st[id].children, nib);
        PrefixStep(id.path, k);
        if nib != key[|id.path|] {
          DifferentByte(k, key, |id.path|);
        }
        hide Next, Good, Owned, NodeOk;
        if next.Some? {
          WriteSeenFrom(st, Below(id, nib, next.value), key, val, prev, b, k);
        }
      }
    }
  }

  lemma OffPath(p: seq<Byte>, key: Hash, k: Hash)
    requires p <= k && !(p <= key) && |p| <= ACCOUNT_SIZE
    ensures Account(k) != Account(key)
  {
    AccountPrefix(p, k);
    AccountPrefix(p, key);
  }

  lemma AccountPrefix(p: seq<Byte>, k: Hash)
    requires |p| <= ACCOUNT_SIZE
    ensures p <= k <==> p <= Account(k)
  {
  }

  /** A reading depends only on the account bytes of the key. */
  lemma {:induction false} LookupByAccount(st: Store, id: NodeId, k: Hash, key: Hash)
    requires Account(k) == Account(key)
    ensures Lookup(st, id, k) == Lookup(st, id, key)
    decreases ACCOUNT_SIZE - |id.path|
  {
    if id in st && |id.path| < ACCOUNT_SIZE {
      var l := |id.path|;
      assert k[l] == Account(k)[l] == Account(key)[l] == key[l];
      if st[id].Leaf? {
        assert k[l..ACCOUNT_SIZE] == Account(k)[l..] && key[l..ACCOUNT_SIZE] == Account(key)[l..];
      } else {
        var next := Next(st[id].children, k[l]);
        hide Next;
        if next.Some? {
          LookupByAccount(st, Below(id, k[l], next.value), k, key);
        }
      }
    }
  }

  /** From the root of b down to any node of b on the way. */
  lemma {:induction false} OwnChainReads(st: Store, q: seq<Byte>, p: seq<Byte>, key: Hash, b: BlockId)
    requires OwnedBelow(st, q, b) && q <= p && p <= key && |p| < ACCOUNT_SIZE && NodeId(p, b) in st
    ensures Lookup(st, NodeId(q, b), key) == Lookup(st, NodeId(p, b), key)
    decreases |p| - |q|
  {
    if q != p {
      OwnedChain(st, q, p, b);
      var nib := key[|q|];
      assert p[|q|] == nib;
      var r := q + [nib];
      assert r <= p;
      OwnedDeeper(st, q, r, b);
      hide Next, OwnedBelow;
      OwnChainReads(st, r, p, key, b);
    }
  }

  /** Before the write, a block that reaches the account through b reads what b reads. */
  lemma {:induction false} SeenBefore(st: Store, id: NodeId, key: Hash, b: BlockId)
    requires Owned(st, b) && id.path <= key && Visits(st, id, key, b)
    ensures Lookup(st, id, key) == Lookup(st, RootId(b), key)
    decreases ACCOUNT_SIZE - |id.path|
  {
    if id.blk == b {
      OwnChainReads(st, [], id.path, key, b);
    } else {
      PrefixStep(id.path, key);
      var nib := key[|id.path|];
      SeenBefore(st, Below(id, nib, Next(st[id].children, nib).value), key, b);
    }
  }

  /** Isolation holds for a block exactly when it does not reach the written account through b,
      or the slot already held the value. */
  lemma IsolatedIff(st: Store, c: BlockId, key: Hash, val: Hash, prev: Option<Hash>, b: BlockId)
    requires Good(st) && Owned(st, b) && RootId(b) in st && RootId(c) in st
    requires ReplaceAt(st, RootId(b), key, val, prev, b).0 == Ok
    ensures var st' := ReplaceAt(st, RootId(b), key, val, prev, b).1;
            var slots := Lookup(st, RootId(b), key);
            && slots.Some? && key[ACCOUNT_SIZE] < |slots.value|
            && (SameReadings(st, st', RootId(c)) <==>
                !Visits(st, RootId(c), key, b) || slots.value[key[ACCOUNT_SIZE]] == val)
  {
    var st' := ReplaceAt(st, RootId(b), key, val, prev, b).1;
    WriteSeenFrom(st, RootId(c), key, val, prev, b, key);
    var slots, nib := Lookup(st, RootId(b), key).value, key[ACCOUNT_SIZE];
    if Visits(st, RootId(c), key, b) {
      SeenBefore(st, RootId(c), key, b);
      assert slots[nib := val][nib] == val;
      assert slots[nib] == val ==> slots[nib := val] == slots;
    }
    forall k: Hash
      ensures !Visits(st, RootId(c), key, b) || slots[nib] == val ==>
              Lookup(st', RootId(c), k) == Lookup(st, RootId(c), k)
    {
      WriteSeenFrom(st, RootId(c), key, val, prev, b, k);
      if Account(k) == Account(key) {
        LookupByAccount(st, RootId(c), k, key);
      }
    }
  }
}

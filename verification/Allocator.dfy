/** The node allocator (alloc.cpp): a write-back cache in front of the database. */
module Allocator {
  import opened Options
  import opened TrieTypes
  import opened Lru
  import opened LedgerSpec

  // ---------- the most recently used keys ----------

  /** The first keys of the list are these. */
  ghost predicate Hot<K(!new)>(keys: seq<K>, hot: set<K>)
  {
    |hot| <= |keys| && Elements(keys[..|hot|]) == hot
  }

  lemma {:induction false} EraseConcat<T>(a: seq<T>, c: seq<T>, x: T)
    ensures Erase(a + c, x) == if x in a then Erase(a, x) + c else a + Erase(c, x)
  {
    if a == [] {
      assert a + c == c;
    } else {
      assert (a + c)[1..] == a[1..] + c;
      EraseConcat(a[1..], c, x);
      assert a == [a[0]] + a[1..];
    }
  }

  lemma ElementsErase<T(!new)>(a: seq<T>, x: T)
    requires Distinct(a)
    ensures Elements(Erase(a, x)) == Elements(a) - {x}
  {
    forall y
      ensures y in Elements(Erase(a, x)) <==> y in Elements(a) && y != x
    {
      EraseMember(a, x, y);
      ElementsMember(a, y);
      ElementsMember(Erase(a, x), y);
    }
  }

  lemma ElementsMember<T(!new)>(a: seq<T>, y: T)
    ensures y in Elements(a) <==> y in a
  {
    if y in a {
      var i :| 0 <= i < |a| && a[i] == y;
    }
  }

  lemma ElementsCons<T(!new)>(x: T, a: seq<T>)
    ensures Elements([x] + a) == {x} + Elements(a)
  {
    forall y
      ensures y in Elements([x] + a) <==> y == x || y in Elements(a)
    {
      ElementsMember([x] + a, y);
      ElementsMember(a, y);
    }
  }

  lemma DistinctPrefix<T>(s: seq<T>, n: nat)
    requires Distinct(s) && n <= |s|
    ensures Distinct(s[..n])
  {
  }

  /** Used keys come to the front and push nothing hot out. */
  lemma HotErase<K(!new)>(keys: seq<K>, hot: set<K>, k: K)
    requires Distinct(keys) && Hot(keys, hot) && k in hot
    ensures Hot(Erase(keys, k), hot - {k}) && Hot([k] + Erase(keys, k), hot)
    ensures k in keys
  {
    var n := |hot|;
    var a, c := keys[..n], keys[n..];
    assert keys == a + c;
    ElementsMember(a, k);
    DistinctPrefix(keys, n);
    EraseConcat(a, c, k);
    EraseMember(a, k, k);
    ElementsErase(a, k);
    var e := Erase(a, k);
    assert (e + c)[..n - 1] == e;
    ElementsCons(k, e);
    assert ([k] + (e + c))[..n] == [k] + e;
    assert {k} + (hot - {k}) == hot;
  }

  lemma HotOther<K(!new)>(keys: seq<K>, hot: set<K>, k: K)
    requires Hot(keys, hot) && k !in hot
    ensures Hot(Erase(keys, k), hot)
  {
    var n := |hot|;
    var a, c := keys[..n], keys[n..];
    assert keys == a + c;
    ElementsMember(a, k);
    EraseConcat(a, c, k);
    assert (a + Erase(c, k))[..n] == a;
  }

  lemma HotFront<K(!new)>(keys: seq<K>, hot: set<K>, k: K)
    requires Distinct(keys) && Hot(keys, hot) && k in keys
    ensures Hot([k] + Erase(keys, k), hot + {k})
  {
    var n := |hot|;
    if k in hot {
      HotErase(keys, hot, k);
      assert hot + {k} == hot;
    } else {
      var a, c := keys[..n], keys[n..];
      assert keys == a + c;
      ElementsMember(a, k);
      EraseConcat(a, c, k);
      assert k in c;
      HotAdd(a + Erase(c, k), hot, k) by {
        assert (a + Erase(c, k))[..n] == a;
      }
    }
  }

  lemma HotAdd<K(!new)>(keys: seq<K>, hot: set<K>, k: K)
    requires Hot(keys, hot) && k !in hot
    ensures Hot([k] + keys, hot + {k})
  {
    var n := |hot|;
    ElementsCons(k, keys[..n]);
    assert ([k] + keys)[..n + 1] == [k] + keys[..n];
  }

  lemma HotCut<K(!new)>(keys: seq<K>, hot: set<K>, n: nat)
    requires Hot(keys, hot) && |hot| <= n <= |keys|
    ensures Hot(keys[..n], hot)
    ensures Distinct(keys) && n < |keys| ==> keys[n] !in hot
  {
    assert keys[..n][..|hot|] == keys[..|hot|];
    if Distinct(keys) && n < |keys| && keys[n] in hot {
      ElementsMember(keys[..|hot|], keys[n]);
    }
  }

  // ---------- the store behind cache and database ----------

  /** The destructor of a node writes it back, unless it is an empty branch. */
  predicate ShouldDelete(n: Node)
  {
    n.Branch? && n.children == []
  }

  /** Nodes that come back from the database as they were. */
  predicate Storable(n: Node)
  {
    n.Branch? ==> 0 < |n.children| < 256
  }

  function WrittenBack(db: Store, id: NodeId, n: Node): Store
  {
    if ShouldDelete(n) then db else db[id := Recoded(n)]
  }

  lemma StorableKept(n: Node)
    requires Storable(n)
    ensures Recoded(n) == n && !ShouldDelete(n)
  {
  }

  /** A canonical root that is nowhere is an empty one: get_root makes it so when it is asked for. */
  ghost function Rooted(m: Store): (r: Store)
  {
    if RootId(CANONICAL) in m then m else m[RootId(CANONICAL) := Branch(0, [])]
  }

  /** Any node but the canonical root. */
  predicate Ordinary(id: NodeId)
  {
    id.path != [] || id.blk != CANONICAL
  }

  /** The empty canonical root. */
  predicate Blank(id: NodeId, n: Node)
  {
    !Ordinary(id) && n == Branch(0, [])
  }

  /** The node comes back as it was, from the database or, the empty canonical root, from nowhere. */
  predicate Returns(id: NodeId, n: Node)
  {
    Storable(n) || Blank(id, n)
  }

  /** No older record stands behind an empty canonical root. */
  ghost predicate Clear(db: Store, flat: Store)
  {
    RootId(CANONICAL) in db && RootId(CANONICAL) in flat ==> flat[RootId(CANONICAL)] != Branch(0, [])
  }

  /** A node that leaves the cache for the database. */
  ghost predicate Leaves(flat: Store, db: Store, gone: NodeId, e: Node, after: Store)
  {
    after == if !ShouldDelete(e) then flat[gone := Recoded(e)]
             else if gone in db then flat[gone := db[gone]]
             else Rooted(flat - {gone})
  }

  lemma FlatAfterEviction(db: Store, cached: Store, gone: NodeId, e: Node)
    requires gone in cached && cached[gone] == e
    ensures Leaves(Rooted(db + cached), db, gone, e, Rooted(WrittenBack(db, gone, e) + (cached - {gone})))
  {
    hide Recoded;
    if ShouldDelete(e) && gone !in db {
      assert db + (cached - {gone}) == (db + cached) - {gone};
    }
  }

  lemma FlatKept(db: Store, cached: Store, gone: NodeId, e: Node)
    requires gone in cached && cached[gone] == e && Returns(gone, e) && Clear(db, Rooted(db + cached))
    ensures var db' := WrittenBack(db, gone, e);
            Rooted(db' + (cached - {gone})) == Rooted(db + cached) && Clear(db', Rooted(db + cached))
  {
    if Storable(e) {
      StorableKept(e);
      hide Recoded, Storable;
      assert db[gone := e] + (cached - {gone}) == db + cached;
    } else {
      assert db + (cached - {gone}) == (db + cached) - {gone};
    }
  }

  /** Giving up a node changes no view exactly if it is storable, an empty branch whose record is one
      too, or the empty canonical root without a record. */
  lemma EvictionKeepsIff(flat: Store, db: Store, gone: NodeId, e: Node, after: Store)
    requires gone in flat && flat[gone] == e && Leaves(flat, db, gone, e, after) && RootId(CANONICAL) in flat
    ensures after == flat <==>
              Storable(e) || (ShouldDelete(e) && if gone in db then db[gone] == e else Blank(gone, e))
    ensures forall id :: id in flat && id != gone ==> id in after && after[id] == flat[id]
  {
    if Storable(e) {
      StorableKept(e);
    } else if !ShouldDelete(e) {
      assert after[gone] == Recoded(e) && |Recoded(e).children| < |e.children|;
    } else if after == flat {
      assert gone in after;
    }
  }

  /** The hot keys are the most recent ones, and n more can be loaded without giving up one of them or
      one that would not come back. */
  ghost predicate CalmAt(cached: Store, keys: seq<NodeId>, capacity: nat, hot: set<NodeId>, n: nat)
  {
    && Hot(keys, hot) && |hot| + n <= capacity
    && (|keys| + n <= capacity || forall id :: id in cached && id !in hot ==> Returns(id, cached[id]))
  }

  ghost predicate KeysAgree(cached: Store, keys: seq<NodeId>, capacity: nat)
  {
    Distinct(keys) && |keys| <= capacity && forall k :: k in keys <==> k in cached
  }

  /** Putting a node keeps the hot ones, and what is given up is storable. */
  lemma CalmPut(cached: Store, keys: seq<NodeId>, capacity: nat, id: NodeId, n: Node,
                cached': Store, keys': seq<NodeId>, evicted: Option<(NodeId, Node)>, hot: set<NodeId>, room: nat)
    requires KeysAgree(cached, keys, capacity) && CalmAt(cached, keys, capacity, hot, room) && 0 < room
    requires PutTo(cached, keys, capacity, id, n, cached', keys', evicted)
    ensures CalmAt(cached', keys', capacity, hot + {id}, room - 1)
    ensures evicted.Some? ==> Returns(evicted.value.0, evicted.value.1)
  {
    if id in cached {
      HotFront(keys, hot, id);
      EraseMember(keys, id, id);
    } else {
      assert id !in hot by {
        ElementsMember(keys[..|hot|], id);
      }
      HotAdd(keys, hot, id);
      ConsDistinct(id, keys);
      if |keys| == capacity {
        HotCut([id] + keys, hot + {id}, capacity);
      }
    }
    hide Hot, Erase, Returns;
  }

  class NodeAllocator {
    const cache: LruCache<NodeId, Node>
    var db: Store

    ghost predicate Valid()
      reads this, cache
    {
      cache.Valid()
    }

    /** The flat store: the cached node, else the record; the canonical root is always there. */
    ghost function Flat(): (r: Store)
      reads this, cache
    {
      Rooted(db + cache.Map())
    }

    /** What holds between operations. */
    ghost predicate Stable()
      reads this, cache
    {
      Valid() && Clear(db, Flat())
    }

    ghost predicate Calm(hot: set<NodeId>, n: nat)
      reads this, cache
    {
      Valid() && Clear(db, Flat()) && CalmAt(cache.Map(), cache.Keys(), cache.capacity, hot, n)
    }

    constructor (capacity: nat, db: Store)
      ensures Valid() && fresh(cache) && Flat() == Rooted(db) && this.db == db && cache.Map() == map[]
      ensures cache.capacity == capacity && (Clear(db, Rooted(db)) ==> Calm({}, capacity))
    {
      cache := new LruCache(capacity);
      this.db := db;
      new;
      assert db + cache.Map() == db;
    }

    /** cache_node, and the destructor of the node that leaves. */
    method CacheNode(id: NodeId, n: Node, ghost hot: set<NodeId>, ghost room: nat)
      returns (ghost lost: Option<(NodeId, Node)>)
      requires Valid()
      modifies this, cache
      ensures Valid()
      ensures |old(cache.Keys())| < cache.capacity ==> lost.None?
      ensures lost.None? ==> Flat() == old(Flat())[id := n]
      ensures lost.Some? ==> Leaves(old(Flat())[id := n], old(db), lost.value.0, lost.value.1, Flat())
      ensures old(Calm(hot, room)) && 0 < room && (Blank(id, n) ==> id in old(Flat()) && old(Flat())[id] == n) ==>
                Calm(hot + {id}, room - 1) && Flat() == old(Flat())[id := n]
    {
      ghost var cached, keys := cache.Map(), cache.Keys();
      cache.Consistent();
      assert KeysAgree(cached, keys, cache.capacity);
      ClearPut(db, Flat(), id, n);
      hide CalmAt, Leaves, PutTo, KeysAgree, Recoded, ShouldDelete, Linked, KeysOf, Contents, Rooted, Clear;
      var evicted := cache.Put(id, n);
      lost := evicted;
      FlatPut(db, cached, keys, cache.capacity, id, n, cache.Map(), cache.Keys(), evicted, hot, room);
      if evicted.Some? {
        db := WrittenBack(db, evicted.value.0, evicted.value.1);
      }
    }

    /** load_node: the node of the flat store, which stays as it is. */
    method LoadNode(id: NodeId, ghost hot: set<NodeId>, ghost room: nat)
      returns (r: Option<Node>, ghost lost: Option<(NodeId, Node)>)
      requires Valid()
      modifies this, cache
      ensures Valid()
      ensures r.Some? ==> id in old(Flat()) && r.value == old(Flat())[id]
      ensures r.None? && id in old(Flat()) ==> Blank(id, old(Flat())[id]) && !Ordinary(id)
      ensures lost.None? ==> Flat() == old(Flat())
      ensures lost.Some? ==> Leaves(old(Flat()), old(db), lost.value.0, lost.value.1, Flat())
      ensures old(Calm(hot, room)) && 0 < room ==>
                && Flat() == old(Flat())
                && Calm(if r.Some? then hot + {id} else hot, if r.Some? then room - 1 else room)
      ensures old(Calm(hot, room)) && id in hot ==> Flat() == old(Flat()) && Calm(hot, room)
    {
      lost := None;
      CalmUsed(cache, id, hot, room);
      FlatHas(db, cache.Map(), id);
      hide CalmAt, Leaves, Linked, KeysOf, Contents, Rooted;
      r := cache.Get(id);
      if r.Some? || id !in db {
        return;
      }
      var n := db[id];
      FlatAgain(db, cache.Map(), id);
      lost := CacheNode(id, n, hot, room);
      r := Some(n);
    }

    /** What changing a node through a held pointer does; the node is in the cache. */
    method SetNode(id: NodeId, n: Node, ghost hot: set<NodeId>, ghost room: nat)
      requires Calm(hot, room) && id in hot
      requires !Blank(id, n)
      modifies cache
      ensures Calm(hot, room) && Flat() == old(Flat())[id := n]
    {
      HotResident(cache, hot, id);
      CalmSet(cache.Map(), cache.Keys(), cache.capacity, hot, room, id, n);
      ClearPut(db, Flat(), id, n);
      RootedPut(db, cache.Map(), id, n);
      hide CalmAt, Hot, Linked, KeysOf, Contents, Rooted, Clear;
      cache.Set(id, n);
    }

    /** The first half of recache: out of the cache and written under its id. */
    method Release(id: NodeId, ghost hot: set<NodeId>, ghost room: nat) returns (r: Option<Node>)
      requires Valid()
      modifies this, cache
      ensures Valid() && (r.Some? <==> id in old(cache.Map()))
      ensures r.None? ==> Flat() == old(Flat())
      ensures r.Some? ==>
                && id in old(Flat()) && r.value == old(Flat())[id] && |cache.Keys()| < cache.capacity
                && Flat() == old(Flat())[id := Recoded(r.value)]
      ensures old(Calm(hot, room)) && Ordinary(id) && id in hot ==> r.Some? && Calm(hot - {id}, room + 1)
    {
      CalmWithout(cache, id, hot, room);
      hide CalmAt, Hot, Linked, KeysOf, Contents, Recoded, Rooted, Clear;
      r := cache.Remove(id);
      if r.Some? {
        FlatMoved(db, old(cache.Map()), id, Recoded(r.value));
        db := db[id := Recoded(r.value)];
      }
    }

    /** recache: written under the old id, then cached under the new one. */
    method Recache(from: NodeId, to: NodeId, ghost hot: set<NodeId>, ghost room: nat) returns (rc: Code)
      requires Valid()
      modifies this, cache
      ensures Valid()
      ensures rc == if from in old(cache.Map()) then Ok else NotExistRecache
      ensures rc != Ok ==> Flat() == old(Flat())
      ensures rc == Ok ==>
                && from in old(Flat())
                && Flat() == old(Flat())[from := Recoded(old(Flat())[from])][to := old(Flat())[from]]
      ensures old(Calm(hot, room)) && Ordinary(from) && Ordinary(to) && from in hot ==>
                rc == Ok && Calm(hot - {from} + {to}, room)
    {
      hide CalmAt, Hot, Linked, KeysOf, Contents, Recoded, Rooted, Leaves, Clear;
      var entry := Release(from, hot, room);
      if entry.None? {
        return NotExistRecache;
      }
      ghost var lost := CacheNode(to, entry.value, hot - {from}, room + 1);
      return Ok;
    }

    /** The cache's remove. */
    method TakeOut(id: NodeId, ghost hot: set<NodeId>, ghost room: nat) returns (r: Option<Node>)
      requires Calm(hot, room) && Ordinary(id)
      modifies cache
      ensures id !in cache.Map() && Flat() - {id} == old(Flat()) - {id} && Calm(hot - {id}, room)
      ensures r.None? ==> Flat() == old(Flat())
      ensures r.Some? ==> id in old(Flat()) && r.value == old(Flat())[id]
      ensures id in hot ==> r.Some? && Calm(hot - {id}, room + 1)
    {
      CalmWithout(cache, id, hot, room);
      FlatWithout(db, cache.Map(), id);
      hide CalmAt, Hot, Linked, KeysOf, Contents, Rooted, Clear;
      r := cache.Remove(id);
    }

    /** The record goes, the cache does not have the node. */
    method Forget(id: NodeId, ghost hot: set<NodeId>, ghost room: nat)
      requires Calm(hot, room) && id !in cache.Map() && Ordinary(id)
      modifies this
      ensures Flat() == old(Flat()) - {id} && Calm(hot, room)
      ensures old(Calm(hot, room + 1)) ==> Calm(hot, room + 1)
    {
      hide CalmAt, Linked, KeysOf, Contents;
      FlatDeleted(db, cache.Map(), id);
      db := db - {id};
    }

    /** delete_node: out of cache and database. */
    method DeleteNode(id: NodeId, ghost hot: set<NodeId>, ghost room: nat) returns (r: Option<Node>)
      requires Calm(hot, room) && 0 < room && Ordinary(id)
      modifies this, cache
      ensures r == if id in old(Flat()) then Some(old(Flat())[id]) else None
      ensures Flat() == old(Flat()) - {id} && Calm(hot - {id}, room)
      ensures id in hot ==> Calm(hot - {id}, room + 1)
    {
      hide CalmAt, Hot, Linked, KeysOf, Contents, Leaves, Rooted, Clear;
      r := TakeOut(id, hot, room);
      if r.None? {
        ghost var lost;
        r, lost := LoadNode(id, hot - {id}, room);
        if r.None? {
          return;
        }
        ghost var loaded := hot - {id} + {id};
        assert loaded - {id} == hot - {id};
        var again := TakeOut(id, loaded, room - 1);
      }
      Forget(id, hot - {id}, room);
    }
  }

  // ---------- between operations ----------

  lemma CalmStable(a: NodeAllocator, hot: set<NodeId>, n: nat)
    requires a.Calm(hot, n)
    ensures a.Stable()
  {
  }

  /** Every node comes back from an eviction as it was: no root is empty but canonical's, and no branch
      has so many children that its one count byte overflows. */
  ghost predicate AllReturn(st: Store)
  {
    forall id :: id in st ==> Returns(id, st[id])
  }

  /** Between operations the cache is calm with all its room if every node would come back, and
      otherwise with the room that the whole store leaves. */
  lemma Rested(a: NodeAllocator, room: nat)
    requires a.Stable() && room <= a.cache.capacity
    requires AllReturn(a.Flat()) || |a.Flat()| + room <= a.cache.capacity
    ensures a.Calm({}, room)
  {
    a.cache.Consistent();
    FlatHasAll(a.db, a.cache.Map());
    assert KeysAgree(a.cache.Map(), a.cache.Keys(), a.cache.capacity);
    hide *;
    RestedAt(a.cache.Map(), a.cache.Keys(), a.cache.capacity, a.Flat(), room);
  }

  lemma RestedAt(cached: Store, keys: seq<NodeId>, capacity: nat, flat: Store, room: nat)
    requires KeysAgree(cached, keys, capacity) && room <= capacity
    requires AllReturn(flat) || |flat| + room <= capacity
    requires forall id :: id in cached ==> id in flat && flat[id] == cached[id]
    ensures CalmAt(cached, keys, capacity, {}, room)
  {
    assert keys[..0] == [];
    if !AllReturn(flat) {
      CountKeys(keys, flat.Keys);
    }
  }

  lemma FlatHasAll(db: Store, cached: Store)
    ensures forall id :: id in cached ==> id in Rooted(db + cached) && Rooted(db + cached)[id] == cached[id]
  {
  }

  lemma {:induction false} CountKeys<T>(keys: seq<T>, s: set<T>)
    requires Distinct(keys) && forall k :: k in keys ==> k in s
    ensures |keys| <= |s|
  {
    if keys != [] {
      CountKeys(keys[1..], s - {keys[0]});
    }
  }

  // ---------- the flat store ----------

  lemma ClearPut(db: Store, flat: Store, id: NodeId, n: Node)
    ensures Clear(db, flat) && (Blank(id, n) ==> id in flat && flat[id] == n) ==> Clear(db, flat[id := n])
  {
  }

  lemma RootedPut(db: Store, cached: Store, id: NodeId, n: Node)
    ensures Rooted(db + cached[id := n]) == Rooted(db + cached)[id := n]
  {
    assert db + cached[id := n] == (db + cached)[id := n];
  }

  lemma FlatHas(db: Store, cached: Store, id: NodeId)
    ensures id in cached ==> id in Rooted(db + cached) && Rooted(db + cached)[id] == cached[id]
    ensures id !in cached && id !in db && id in Rooted(db + cached) ==>
              !Ordinary(id) && Blank(id, Rooted(db + cached)[id])
  {
  }

  lemma FlatAgain(db: Store, cached: Store, id: NodeId)
    requires id in db && id !in cached
    ensures Rooted(db + cached)[id := db[id]] == Rooted(db + cached) && Rooted(db + cached)[id] == db[id]
    ensures Clear(db, Rooted(db + cached)) ==> !Blank(id, db[id])
  {
  }

  lemma FlatWithout(db: Store, cached: Store, id: NodeId)
    requires Ordinary(id)
    ensures Rooted(db + (cached - {id})) - {id} == Rooted(db + cached) - {id}
    ensures Clear(db, Rooted(db + cached)) ==> Clear(db, Rooted(db + (cached - {id})))
    ensures if id in cached then id in Rooted(db + cached) &&
            Rooted(db + cached)[id] == cached[id] else cached - {id} == cached
  {
  }

  lemma FlatDeleted(db: Store, cached: Store, id: NodeId)
    requires id !in cached && Ordinary(id)
    ensures Rooted((db - {id}) + cached) == Rooted(db + cached) - {id}
    ensures Clear(db, Rooted(db + cached)) ==> Clear(db - {id}, Rooted(db + cached) - {id})
  {
    assert (db - {id}) + cached == (db + cached) - {id};
  }

  lemma FlatMoved(db: Store, cached: Store, from: NodeId, n: Node)
    requires from in cached
    ensures Rooted(db[from := n] + (cached - {from})) == Rooted(db + cached)[from := n] &&
            Rooted(db + cached)[from] == cached[from]
    ensures Ordinary(from) && Clear(db, Rooted(db + cached)) ==> Clear(db[from := n], Rooted(db + cached)[from := n])
  {
    assert db[from := n] + (cached - {from}) == (db + cached)[from := n];
  }

  lemma HotResident(cache: LruCache<NodeId, Node>, hot: set<NodeId>, id: NodeId)
    requires cache.Valid() && Hot(cache.Keys(), hot) && id in hot
    ensures id in cache.Map()
  {
    cache.Consistent();
    ElementsMember(cache.Keys()[..|hot|], id);
  }

  /** A key that is used again. */
  lemma CalmUsed(cache: LruCache<NodeId, Node>, id: NodeId, hot: set<NodeId>, room: nat)
    requires cache.Valid()
    ensures id in cache.Map() && CalmAt(cache.Map(), cache.Keys(), cache.capacity, hot, room) && 0 < room ==>
              CalmAt(cache.Map(), [id] + Erase(cache.Keys(), id), cache.capacity, hot + {id}, room - 1)
    ensures id in hot && CalmAt(cache.Map(), cache.Keys(), cache.capacity, hot, room) ==>
              id in cache.Map() && CalmAt(cache.Map(), [id] + Erase(cache.Keys(), id), cache.capacity, hot, room)
  {
    cache.Consistent();
    var keys := cache.Keys();
    hide Linked, KeysOf, Contents, Erase;
    if CalmAt(cache.Map(), keys, cache.capacity, hot, room) {
      if id in hot {
        HotErase(keys, hot, id);
      }
      if id in keys {
        HotFront(keys, hot, id);
        EraseMember(keys, id, id);
      }
    }
  }

  lemma CalmSet(cached: Store, keys: seq<NodeId>, capacity: nat, hot: set<NodeId>, room: nat, id: NodeId, n: Node)
    requires CalmAt(cached, keys, capacity, hot, room) && id in hot
    ensures CalmAt(cached[id := n], keys, capacity, hot, room)
  {
  }

  /** A key that is taken out leaves room for one more. */
  lemma CalmWithout(cache: LruCache<NodeId, Node>, id: NodeId, hot: set<NodeId>, room: nat)
    requires cache.Valid()
    ensures id in cache.Map() ==> |Erase(cache.Keys(), id)| < cache.capacity
    ensures CalmAt(cache.Map(), cache.Keys(), cache.capacity, hot, room) ==>
              && CalmAt(cache.Map() - {id}, Erase(cache.Keys(), id), cache.capacity, hot - {id}, room)
              && (id in hot ==>
                    && id in cache.Map()
                    && CalmAt(cache.Map() - {id}, Erase(cache.Keys(), id), cache.capacity, hot - {id}, room + 1))
  {
    cache.Consistent();
    var keys := cache.Keys();
    EraseMember(keys, id, id);
    hide Linked, KeysOf, Contents, Erase;
    if CalmAt(cache.Map(), keys, cache.capacity, hot, room) {
      if id in hot {
        HotErase(keys, hot, id);
      } else {
        HotOther(keys, hot, id);
        assert hot - {id} == hot;
      }
    }
  }

  lemma FlatPut(db: Store, cached: Store, keys: seq<NodeId>, capacity: nat, id: NodeId, n: Node,
                cached': Store, keys': seq<NodeId>, evicted: Option<(NodeId, Node)>, hot: set<NodeId>, room: nat)
    requires KeysAgree(cached, keys, capacity) && PutTo(cached, keys, capacity, id, n, cached', keys', evicted)
    ensures |keys| < capacity ==> evicted.None?
    ensures evicted.None? ==> Rooted(db + cached') == Rooted(db + cached)[id := n]
    ensures evicted.Some? ==>
              var (gone, e) := evicted.value;
              Leaves(Rooted(db + cached)[id := n], db, gone, e, Rooted(WrittenBack(db, gone, e) + cached'))
    ensures CalmAt(cached, keys, capacity, hot, room) && 0 < room ==>
              && CalmAt(cached', keys', capacity, hot + {id}, room - 1)
              && (evicted.Some? && Clear(db, Rooted(db + cached)[id := n]) ==>
                    var db' := WrittenBack(db, evicted.value.0, evicted.value.1);
                    Rooted(db' + cached') == Rooted(db + cached)[id := n] && Clear(db', Rooted(db + cached)[id := n]))
  {
    PutMap(cached, keys, capacity, id, n, cached', keys', evicted);
    RootedPut(db, cached, id, n);
    hide CalmAt, PutTo, KeysAgree, Leaves, Recoded, Clear, Rooted;
    if CalmAt(cached, keys, capacity, hot, room) && 0 < room {
      CalmPut(cached, keys, capacity, id, n, cached', keys', evicted, hot, room);
    }
    if evicted.Some? {
      FlatAfterEviction(db, cached[id := n], evicted.value.0, evicted.value.1);
      if Clear(db, Rooted(db + cached[id := n])) && Returns(evicted.value.0, evicted.value.1) {
        FlatKept(db, cached[id := n], evicted.value.0, evicted.value.1);
      }
    }
  }

  lemma PutMap(cached: Store, keys: seq<NodeId>, capacity: nat, id: NodeId, n: Node,
               cached': Store, keys': seq<NodeId>, evicted: Option<(NodeId, Node)>)
    requires PutTo(cached, keys, capacity, id, n, cached', keys', evicted)
    ensures |keys| < capacity ==> evicted.None?
    ensures evicted.None? ==> cached' == cached[id := n]
    ensures evicted.Some? ==>
              var (gone, e) := evicted.value;
              gone in cached[id := n] && cached[id := n][gone] == e && cached' == cached[id := n] - {gone}
  {
  }
}

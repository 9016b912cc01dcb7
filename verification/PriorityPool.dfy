/** The transaction pool with lazy deletion (src/blockchain/priority.rs). */
module PriorityPool {
  import opened Options

  /** The live items: value and priority by key. */
  type Items<K(==), V> = map<K, (V, nat)>

  // ---------- what the pool promises, without the heap ----------

  ghost predicate Greatest<K(!new), V(!new)>(live: Items<K, V>, key: K)
  {
    key in live && forall k :: k in live ==> live[k].1 <= live[key].1
  }

  /** One pop: some live item of greatest priority leaves. */
  ghost predicate Popped<K(!new), V(!new)>(live: Items<K, V>, key: K, rest: Items<K, V>)
  {
    Greatest(live, key) && rest == live - {key}
  }

  ghost predicate Evicted<K(!new), V(!new)>(live: Items<K, V>, after: Items<K, V>)
  {
    exists k :: Popped(live, k, after)
  }

  /** A pool over capacity gives up a key that leads in the heap. */
  ghost predicate GivenUp<K(!new), V(!new)>(live: Items<K, V>, heap: Heap<K>, after: Items<K, V>)
  {
    exists k :: Leads(live, heap, k) && after == live - {k}
  }

  /** One insert: the item is there, and a pool that was full gives up an item of greatest priority. */
  ghost predicate Inserted<K(!new), V(!new)>(live: Items<K, V>, capacity: nat, key: K, item: (V, nat), after: Items<K,
                             V>)
  {
    if key in live || |live| < capacity then after == live[key := item]
    else Evicted(live[key := item], after)
  }

  /** Pops in a row never climb, never repeat a key, and are as many as there were items when the
      pool is empty. */
  lemma {:induction false} Drain<K(!new), V(!new)>(pools: seq<Items<K, V>>, keys: seq<K>)
    requires |pools| == |keys| + 1
    requires forall i :: 0 <= i < |keys| ==> Popped(pools[i], keys[i], pools[i + 1])
    ensures forall i :: 0 <= i < |keys| ==> keys[i] in pools[0]
    ensures forall i, j :: 0 <= i < j < |keys| ==> keys[i] != keys[j] && pools[0][keys[j]].1 <= pools[0][keys[i]].1
    ensures |pools[|keys|]| == |pools[0]| - |keys|
    ensures forall k :: k in pools[0] ==> k in keys || k in pools[|keys|]
  {
    if |keys| > 0 {
      var rest, ks := pools[1..], keys[1..];
      assert Popped(pools[0], keys[0], pools[1]);
      forall i | 0 <= i < |ks|
        ensures Popped(rest[i], ks[i], rest[i + 1])
      {
        assert Popped(pools[i + 1], keys[i + 1], pools[i + 2]);
      }
      Drain(rest, ks);
      RemoveSize(pools[0], keys[0]);
      DrainFirst(pools[0], keys);
    }
  }

  /** What is left after some pops is as it was at first. */
  lemma {:induction false} SameAsFirst<K(!new), V(!new)>(pools: seq<Items<K, V>>, keys: seq<K>)
    requires |pools| == |keys| + 1
    requires forall i :: 0 <= i < |keys| ==> Popped(pools[i], keys[i], pools[i + 1])
    ensures forall i, k :: 0 <= i < |pools| && k in pools[i] ==> k in pools[0] && pools[i][k] == pools[0][k]
  {
    if |keys| > 0 {
      var n := |keys| - 1;
      SameAsFirst(pools[..n + 1], keys[..n]);
      assert Popped(pools[n], keys[n], pools[n + 1]);
      forall i, k | 0 <= i < |pools| && k in pools[i]
        ensures k in pools[0] && pools[i][k] == pools[0][k]
      {
        assert i <= n ==> pools[..n + 1][i] == pools[i];
        assert pools[..n + 1][n] == pools[n];
      }
    }
  }

  /** The pools, keys and values of pops in a row. */
  ghost predicate PoppedInRow<K(!new), V(!new)>(pools: seq<Items<K, V>>, keys: seq<K>, values: seq<V>)
  {
    && |pools| == |keys| + 1 && |values| == |keys|
    && (forall i :: 0 <= i < |keys| ==> Popped(pools[i], keys[i], pools[i + 1]))
    && (forall i :: 0 <= i < |keys| ==> keys[i] in pools[i] && values[i] == pools[i][keys[i]].0)
  }

  lemma OneMore<K(!new), V(!new)>(pools: seq<Items<K, V>>, keys: seq<K>, values: seq<V>, key: K, rest: Items<K, V>)
    requires PoppedInRow(pools, keys, values) && Popped(pools[|keys|], key, rest)
    ensures key in pools[|keys|]
    ensures PoppedInRow(pools + [rest], keys + [key], values + [pools[|keys|][key].0])
    ensures (pools + [rest])[0] == pools[0] && (pools + [rest])[|keys| + 1] == rest
  {
    var pools', keys' := pools + [rest], keys + [key];
    forall i | 0 <= i < |keys'|
      ensures Popped(pools'[i], keys'[i], pools'[i + 1])
    {
      assert i < |keys| ==> Popped(pools[i], keys[i], pools[i + 1]);
    }
  }

  lemma AllPopped<K(!new), V(!new)>(pools: seq<Items<K, V>>, keys: seq<K>, values: seq<V>)
    requires PoppedInRow(pools, keys, values) && pools[|keys|] == map[]
    ensures |values| == |keys| == |pools[0]|
    ensures forall i :: 0 <= i < |keys| ==> keys[i] in pools[0] && values[i] == pools[0][keys[i]].0
    ensures forall i, j :: 0 <= i < j < |keys| ==> keys[i] != keys[j] && pools[0][keys[j]].1 <= pools[0][keys[i]].1
    ensures forall k :: k in pools[0] ==> k in keys
  {
    Drain(pools, keys);
    SameAsFirst(pools, keys);
    hide Popped;
  }

  lemma DrainFirst<K(!new), V(!new)>(live: Items<K, V>, keys: seq<K>)
    requires keys != [] && Greatest(live, keys[0])
    requires forall i :: 0 <= i < |keys| - 1 ==> keys[1..][i] in live - {keys[0]}
    requires forall i, j :: 0 <= i < j < |keys| - 1 ==>
               keys[1..][i] != keys[1..][j] && live[keys[1..][j]].1 <= live[keys[1..][i]].1
    ensures forall i :: 0 <= i < |keys| ==> keys[i] in live
    ensures forall i, j :: 0 <= i < j < |keys| ==> keys[i] != keys[j] && live[keys[j]].1 <= live[keys[i]].1
  {
    forall i | 0 <= i < |keys|
      ensures keys[i] in live && (i > 0 ==> keys[i] != keys[0])
    {
      if i > 0 { assert keys[1..][i - 1] == keys[i]; }
    }
    forall i, j | 0 <= i < j < |keys|
      ensures keys[i] != keys[j] && live[keys[j]].1 <= live[keys[i]].1
    {
      if i > 0 { assert keys[1..][i - 1] == keys[i] && keys[1..][j - 1] == keys[j]; }
    }
  }

  lemma RemoveSize<K, V>(live: map<K, V>, key: K)
    requires key in live
    ensures |live - {key}| == |live| - 1
  {
    assert (live - {key}).Keys == live.Keys - {key};
    SizeOfKeys(live);
    SizeOfKeys(live - {key});
  }

  lemma AddSize<K, V>(live: map<K, V>, key: K, item: V)
    ensures |live[key := item]| == if key in live then |live| else |live| + 1
  {
    assert live[key := item].Keys == live.Keys + {key};
    SizeOfKeys(live);
    SizeOfKeys(live[key := item]);
  }

  lemma SizeOfKeys<K, V>(live: map<K, V>)
    ensures |live| == |live.Keys|
  {
  }

  // ---------- the heap ----------

  type Heap<K(==)> = multiset<(nat, K)>

  predicate Top<K(==, !new)>(heap: Heap<K>, e: (nat, K))
  {
    e in heap && forall f :: f in heap ==> f.0 <= e.0
  }

  lemma {:induction false} TopExists<K(!new)>(heap: Heap<K>)
    requires |heap| > 0
    ensures exists e :: Top(heap, e)
    decreases |heap|
  {
    var e :| e in heap;
    var rest := heap - multiset{e};
    if |rest| == 0 {
      assert forall f :: f in heap ==> f == e by {
        assert heap == rest + multiset{e};
      }
      assert Top(heap, e);
    } else {
      TopExists(rest);
      var t :| Top(rest, t);
      assert forall f :: f in heap ==> f == e || f in rest;
      assert Top(heap, if e.0 <= t.0 then t else e);
    }
  }

  /** Every live key has an entry in the heap; other entries are stale. */
  ghost predicate Tracked<K(!new), V(!new)>(live: Items<K, V>, heap: Heap<K>)
  {
    forall k :: k in live ==> exists p :: (p, k) in heap
  }

  /** The entries of live keys carry their priorities. */
  ghost predicate Aligned<K(!new), V(!new)>(live: Items<K, V>, heap: Heap<K>)
  {
    forall p, k :: (p, k) in heap && k in live ==> p == live[k].1
  }

  /** The entries the pool has for a key, stale ones too, agree with a priority. */
  ghost predicate Agrees<K(!new)>(heap: Heap<K>, key: K, priority: nat)
  {
    forall p :: (p, key) in heap ==> p == priority
  }

  /** Priority is a function of the key. */
  ghost predicate RankedBy<K(!new), V(!new)>(live: Items<K, V>, heap: Heap<K>, rank: K -> nat)
  {
    && (forall k :: k in live ==> live[k].1 == rank(k))
    && (forall p, k :: (p, k) in heap ==> p == rank(k))
  }

  lemma DropStale<K(!new), V(!new)>(live: Items<K, V>, heap: Heap<K>, e: (nat, K))
    requires Tracked(live, heap) && e in heap && e.1 !in live
    ensures Tracked(live, heap - multiset{e}) && |heap - multiset{e}| < |heap|
    ensures forall f: (nat, K) :: f.1 in live ==> (heap - multiset{e})[f] == heap[f]
  {
    forall k | k in live
      ensures exists p :: (p, k) in heap - multiset{e}
    {
      var p :| (p, k) in heap;
      assert (p, k) in heap - multiset{e};
    }
  }

  /** Taking a key out with one of its entries keeps the others tracked. */
  lemma DropLive<K(!new), V(!new)>(live: Items<K, V>, heap: Heap<K>, e: (nat, K))
    requires Tracked(live, heap) && e in heap
    ensures Tracked(live - {e.1}, heap - multiset{e})
  {
    forall k | k in live - {e.1}
      ensures exists p :: (p, k) in heap - multiset{e}
    {
      var p :| (p, k) in heap;
      assert (p, k) in heap - multiset{e};
    }
  }

  /** Fewer items and fewer entries stay aligned and ranked. */
  lemma DropAligned<K(!new), V(!new)>(live: Items<K, V>, heap: Heap<K>, e: (nat, K), after: Items<K, V>, rank: K -> nat)
    requires after == live || after == live - {e.1}
    ensures Aligned(live, heap) ==> Aligned(after, heap - multiset{e})
    ensures RankedBy(live, heap, rank) ==> RankedBy(after, heap - multiset{e}, rank)
  {
    assert forall f :: f in heap - multiset{e} ==> f in heap;
  }

  lemma NothingLive<K(!new), V(!new)>(live: Items<K, V>, heap: Heap<K>)
    requires Tracked(live, heap) && |heap| == 0
    ensures live == map[]
  {
  }

  /** What a new or replaced item does to the entries of the heap. */
  lemma AddAligned<K(!new), V(!new)>(live: Items<K, V>, heap: Heap<K>, key: K, item: (V, nat), rank: K -> nat)
    ensures Tracked(live, heap) ==> Tracked(live[key := item], heap + multiset{(item.1, key)})
    ensures Tracked(live, heap) && key in live ==> Tracked(live[key := item], heap)
    ensures Aligned(live, heap) ==> (Aligned(live[key := item], heap) <==> Agrees(heap, key, item.1))
    ensures Aligned(live[key := item], heap) <==> Aligned(live[key := item], heap + multiset{(item.1, key)})
    ensures RankedBy(live, heap, rank) && item.1 == rank(key) ==>
              RankedBy(live[key := item], heap, rank) &&
                  RankedBy(live[key := item], heap + multiset{(item.1, key)}, rank)
  {
    var more, after := heap + multiset{(item.1, key)}, live[key := item];
    assert forall f :: f in more <==> f in heap || f == (item.1, key);
    forall k | Tracked(live, heap) && k in after
      ensures exists p :: (p, k) in more
    {
      if k == key {
        assert (item.1, k) in more;
      } else {
        var p :| (p, k) in heap;
        assert (p, k) in more;
      }
    }
    if Aligned(live, heap) && Aligned(live[key := item], heap) {
      assert Agrees(heap, key, item.1);
    }
  }

  // ---------- which item comes out ----------

  /** With priority a function of the key the entries always carry the live priorities. */
  lemma RankedAligned<K(!new), V(!new)>(live: Items<K, V>, heap: Heap<K>, rank: K -> nat, key: K)
    requires RankedBy(live, heap, rank)
    ensures Aligned(live, heap) && Agrees(heap, key, rank(key))
  {
  }

  /** No live key has a higher entry than the best one of this key. */
  ghost predicate Leads<K(!new), V(!new)>(live: Items<K, V>, heap: Heap<K>, key: K)
  {
    key in live && exists p: nat :: HighestLive(live, heap, (p, key))
  }

  ghost predicate HighestLive<K(!new), V(!new)>(live: Items<K, V>, heap: Heap<K>, e: (nat, K))
  {
    e in heap && forall f :: f in heap && f.1 in live ==> f.0 <= e.0
  }

  /** What popping the heap until a live key turns up can give, whatever the order among equals. */
  ghost predicate PopsTo<K(!new), V(!new)>(live: Items<K, V>, heap: Heap<K>, key: K)
    decreases |heap|
  {
    exists e :: Top(heap, e) && if e.1 in live then e.1 == key else PopsTo(live, heap - multiset{e}, key)
  }

  /** It gives exactly the leading keys. */
  lemma {:induction false} PopsToIff<K(!new), V(!new)>(live: Items<K, V>, heap: Heap<K>, key: K)
    ensures PopsTo(live, heap, key) <==> Leads(live, heap, key)
    decreases |heap|
  {
    if PopsTo(live, heap, key) {
      var e :| Top(heap, e) && if e.1 in live then e.1 == key else PopsTo(live, heap - multiset{e}, key);
      if e.1 in live {
        assert HighestLive(live, heap, (e.0, key));
      } else {
        PopsToIff(live, heap - multiset{e}, key);
        LeadsWithout(live, heap, e, key);
      }
    }
    if Leads(live, heap, key) {
      var p: nat :| HighestLive(live, heap, (p, key));
      TopExists(heap);
      var e :| Top(heap, e);
      if e.1 in live {
        assert Top(heap, (p, key));
      } else {
        LeadsWithout(live, heap, e, key);
        PopsToIff(live, heap - multiset{e}, key);
      }
    }
  }

  lemma LeadsWithout<K(!new), V(!new)>(live: Items<K, V>, heap: Heap<K>, e: (nat, K), key: K)
    requires e in heap && e.1 !in live
    ensures Leads(live, heap - multiset{e}, key) <==> Leads(live, heap, key)
  {
    assert forall f: (nat, K) :: f.1 in live ==> (f in heap - multiset{e} <==> f in heap);
    if Leads(live, heap, key) {
      var p: nat :| HighestLive(live, heap, (p, key));
      assert HighestLive(live, heap - multiset{e}, (p, key));
    }
    if Leads(live, heap - multiset{e}, key) {
      var p: nat :| HighestLive(live, heap - multiset{e}, (p, key));
      assert HighestLive(live, heap, (p, key));
    }
  }

  /** Exactly when every pop gives an item of greatest priority: every live key whose best entry no
      other live key tops has that priority. */
  lemma PopGreatestIff<K(!new), V(!new)>(live: Items<K, V>, heap: Heap<K>)
    ensures (forall key :: PopsTo(live, heap, key) ==> Greatest(live, key))
       <==> (forall key :: Leads(live, heap, key) ==> Greatest(live, key))
  {
    forall key
      ensures PopsTo(live, heap, key) <==> Leads(live, heap, key)
    {
      PopsToIff(live, heap, key);
    }
  }

  /** It is so when the entries of live keys carry their priorities. */
  lemma LeadsGreatest<K(!new), V(!new)>(live: Items<K, V>, heap: Heap<K>, key: K)
    requires Tracked(live, heap) && Aligned(live, heap) && Leads(live, heap, key)
    ensures Greatest(live, key)
  {
    var p: nat :| HighestLive(live, heap, (p, key));
    assert (p, key) in heap;
    forall k | k in live
      ensures live[k].1 <= live[key].1
    {
      var q :| (q, k) in heap;
    }
  }

  /** The entries of live keys are as they were. */
  ghost predicate SameLive<K(!new), V(!new)>(live: Items<K, V>, before: Heap<K>, after: Heap<K>)
  {
    forall e: (nat, K) :: e.1 in live ==> after[e] == before[e]
  }

  lemma TopLeads<K(!new), V(!new)>(live: Items<K, V>, before: Heap<K>, heap: Heap<K>, e: (nat, K))
    requires SameLive(live, before, heap) && Top(heap, e) && e.1 in live
    ensures Leads(live, before, e.1)
  {
    assert forall f: (nat, K) :: f.1 in live ==> (f in before <==> f in heap);
    assert HighestLive(live, before, (e.0, e.1));
  }

  class PriorityPool<K(==, !new), V(!new)> {
    var live: Items<K, V>
    var heap: Heap<K>
    const capacity: nat
    const keyOf: V -> K
    const priorityOf: V -> nat

    ghost predicate Valid()
      reads this
    {
      Tracked(live, heap) && |live| <= capacity
    }

    constructor (capacity: nat, keyOf: V -> K, priorityOf: V -> nat)
      ensures Valid() && live == map[] && heap == multiset{}
      ensures this.capacity == capacity && this.keyOf == keyOf && this.priorityOf == priorityOf
    {
      live, heap := map[], multiset{};
      this.capacity, this.keyOf, this.priorityOf := capacity, keyOf, priorityOf;
    }

    /** BinaryHeap::pop on a heap that is not empty; ties are left open. */
    method PopHeap() returns (e: (nat, K))
      requires |heap| > 0
      modifies this`heap
      ensures Top(old(heap), e) && heap == old(heap) - multiset{e}
    {
      TopExists(heap);
      e :| Top(heap, e);
      heap := heap - multiset{e};
    }

    /** clean: stale entries leave the top. */
    method Clean()
      requires Valid()
      modifies this`heap
      ensures Valid() && heap <= old(heap)
      ensures SameLive(live, old(heap), heap)
      ensures |heap| > 0 ==> exists e :: Top(heap, e) && e.1 in live
      ensures |heap| == 0 <==> live == map[]
    {
      while |heap| > 0
        invariant Valid() && heap <= old(heap)
        invariant SameLive(live, old(heap), heap)
        decreases |heap|
      {
        TopExists(heap);
        var e :| Top(heap, e);
        if e.1 in live {
          break;
        }
        DropStale(live, heap, e);
        heap := heap - multiset{e};
      }
      if |heap| == 0 {
        NothingLive(live, heap);
      }
    }

    /** peek: the entry of a live item of greatest priority. */
    method Peek() returns (r: Option<(nat, K)>)
      requires Valid()
      modifies this`heap
      ensures Valid() && heap <= old(heap)
      ensures r.None? <==> live == map[]
      ensures r.Some? ==> r.value in heap && r.value.1 in live
      ensures r.Some? ==> Leads(live, old(heap), r.value.1)
      ensures r.Some? && old(Aligned(live, heap)) ==> Greatest(live, r.value.1) && r.value.0 == live[r.value.1].1
    {
      Clean();
      if |heap| == 0 {
        return None;
      }
      var e :| Top(heap, e) && e.1 in live;
      r := Some(e);
      TopLeads(live, old(heap), heap, e);
      if old(Aligned(live, heap)) {
        LeadsGreatest(live, old(heap), e.1);
        assert (e.0, e.1) in old(heap);
      }
    }

    /** pop: a live item of greatest priority, or nothing if there is no live item. */
    method Pop(ghost rank: K -> nat) returns (r: Option<V>, ghost key: Option<K>)
      requires Valid()
      modifies this`live, this`heap
      ensures Valid()
      ensures r.None? <==> old(live) == map[]
      ensures r.None? ==> key.None? && live == old(live)
      ensures r.Some? ==> key.Some? && key.value in old(live) && r.value == old(live)[key.value].0
      ensures r.Some? ==> live == old(live) - {key.value} && Leads(old(live), old(heap), key.value)
      ensures r.Some? && old(Aligned(live, heap)) ==> Popped(old(live), key.value, live)
      ensures r.Some? && old(RankedBy(live, heap, rank)) ==> Popped(old(live), key.value, live)
      ensures old(Aligned(live, heap)) ==> Aligned(live, heap)
      ensures old(RankedBy(live, heap, rank)) ==> RankedBy(live, heap, rank)
    {
      key := None;
      while |heap| > 0
        invariant Valid() && live == old(live) && SameLive(live, old(heap), heap)
        invariant old(Aligned(live, heap)) ==> Aligned(live, heap)
        invariant old(RankedBy(live, heap, rank)) ==> RankedBy(live, heap, rank)
        decreases |heap|
      {
        ghost var before := heap;
        var e := PopHeap();
        if e.1 in live {
          r, key := Some(live[e.1].0), Some(e.1);
          DropLive(live, before, e);
          RemoveSize(live, e.1);
          DropAligned(live, before, e, live - {e.1}, rank);
          TopLeads(live, old(heap), before, e);
          if old(RankedBy(live, heap, rank)) {
            RankedAligned(live, old(heap), rank, e.1);
          }
          if old(Aligned(live, heap)) {
            LeadsGreatest(live, old(heap), e.1);
          }
          live := live - {e.1};
          return;
        }
        DropStale(live, before, e);
        DropAligned(live, before, e, live, rank);
      }
      NothingLive(live, heap);
      Clean();
      return None, None;
    }

    /** Popping until nothing comes: every item once, and no priority above an earlier one. */
    method DrainAll(ghost rank: K -> nat) returns (values: seq<V>, ghost keys: seq<K>)
      requires Valid() && Aligned(live, heap)
      modifies this`live, this`heap
      ensures Valid() && live == map[] && |values| == |keys| == |old(live)|
      ensures forall i :: 0 <= i < |keys| ==> keys[i] in old(live) && values[i] == old(live)[keys[i]].0
      ensures forall i, j :: 0 <= i < j < |keys| ==> keys[i] != keys[j] && old(live)[keys[j]].1 <= old(live)[keys[i]].1
      ensures forall k :: k in old(live) ==> k in keys
    {
      values, keys := [], [];
      ghost var pools := [live];
      hide Aligned, RankedBy, Tracked, Popped, Leads;
      var more := true;
      while more
        invariant Valid() && Aligned(live, heap) && PoppedInRow(pools, keys, values)
        invariant pools[0] == old(live) && pools[|keys|] == live && (!more ==> live == map[])
        decreases more, |live|
      {
        hide PoppedInRow;
        ghost var was := live;
        var r;
        ghost var key;
        r, key := Pop(rank);
        if r.None? {
          more := false;
        } else {
          RemoveSize(was, key.value);
          OneMore(pools, keys, values, key.value, live);
          values, keys, pools := values + [r.value], keys + [key.value], pools + [live];
        }
      }
      hide PoppedInRow;
      AllPopped(pools, keys, values);
    }

    /** remove_one: the heap entry stays behind. */
    method RemoveOne(key: K, ghost rank: K -> nat)
      requires Valid()
      modifies this`live
      ensures Valid() && live == old(live) - {key}
      ensures old(Aligned(live, heap)) ==> Aligned(live, heap)
      ensures old(RankedBy(live, heap, rank)) ==> RankedBy(live, heap, rank)
    {
      if key in live {
        RemoveSize(live, key);
      }
      live := live - {key};
    }

    /** The loop at the end of insert: entries leave the top of the heap until a live one was among them. */
    method Evict(ghost rank: K -> nat)
      requires Tracked(live, heap) && |live| <= capacity + 1
      modifies this`live, this`heap
      ensures Valid()
      ensures |old(live)| <= capacity ==> live == old(live) && heap == old(heap)
      ensures |old(live)| > capacity ==> GivenUp(old(live), old(heap), live)
      ensures |old(live)| > capacity && old(Aligned(live, heap)) ==> Evicted(old(live), live)
      ensures old(Aligned(live, heap)) ==> Aligned(live, heap)
      ensures old(RankedBy(live, heap, rank)) ==> RankedBy(live, heap, rank)
    {
      hide RankedBy, Aligned, Tracked;
      while |live| > capacity
        invariant Tracked(live, heap)
        invariant |live| > capacity ==> live == old(live) && SameLive(live, old(heap), heap)
        invariant |old(live)| <= capacity ==> live == old(live) && heap == old(heap)
        invariant |old(live)| > capacity >= |live| ==> GivenUp(old(live), old(heap), live)
        invariant |old(live)| > capacity >= |live| && old(Aligned(live, heap)) ==> Evicted(old(live), live)
        invariant old(Aligned(live, heap)) ==> Aligned(live, heap)
        invariant old(RankedBy(live, heap, rank)) ==> RankedBy(live, heap, rank)
        decreases |heap|
      {
        if |heap| == 0 {
          NothingLive(live, heap);
        }
        ghost var before := heap;
        var e := PopHeap();
        if e.1 in live {
          DropLive(live, before, e);
          RemoveSize(live, e.1);
          DropAligned(live, before, e, live - {e.1}, rank);
          TopLeads(live, old(heap), before, e);
          if old(Aligned(live, heap)) {
            LeadsGreatest(live, old(heap), e.1);
            assert Popped(live, e.1, live - {e.1});
          }
          live := live - {e.1};
        } else {
          DropStale(live, before, e);
          DropAligned(live, before, e, live, rank);
        }
      }
    }

    /** insert: an item whose key is live replaces the old one and keeps its place in the heap. */
    method Insert(val: V, ghost rank: K -> nat)
      requires Valid()
      modifies this`live, this`heap
      ensures Valid()
      ensures old(Aligned(live, heap)) && old(Agrees(heap, keyOf(val), priorityOf(val))) ==>
                && Aligned(live, heap)
                && Inserted(old(live), capacity, keyOf(val), (val, priorityOf(val)), live)
      ensures old(RankedBy(live, heap, rank)) && priorityOf(val) == rank(keyOf(val)) ==> RankedBy(live, heap, rank)
      ensures (keyOf(val) in old(live) || |old(live)| < capacity) && old(Aligned(live, heap)) ==>
                (Aligned(live, heap) <==> old(Agrees(heap, keyOf(val), priorityOf(val))))
      ensures keyOf(val) in old(live) || |old(live)| < capacity ==>
              live == old(live)[keyOf(val) := (val, priorityOf(val))]
      ensures keyOf(val) !in old(live) && |old(live)| == capacity ==>
                GivenUp(old(live)[keyOf(val) := (val, priorityOf(val))],
                    old(heap) + multiset{(priorityOf(val), keyOf(val))}, live)
      ensures keyOf(val) in old(live) ==> heap == old(heap)
      ensures keyOf(val) !in old(live) && |old(live)| < capacity ==>
              heap == old(heap) + multiset{(priorityOf(val), keyOf(val))}
    {
      hide RankedBy, Aligned, Tracked, Agrees, Evicted, GivenUp;
      var key, priority := keyOf(val), priorityOf(val);
      AddSize(live, key, (val, priority));
      AddAligned(live, heap, key, (val, priority), rank);
      if key in live {
        live := live[key := (val, priority)];
        return;
      }
      live := live[key := (val, priority)];
      heap := heap + multiset{(priority, key)};
      Evict(rank);
    }
  }

  /** Insert into a pool of pairs that has room. */
  method Add(pool: PriorityPool<int, (int, nat)>, v: (int, nat))
    requires pool.Valid() && |pool.live| < pool.capacity && pool.keyOf(v) == v.0 && pool.priorityOf(v) == v.1
    modifies pool
    ensures pool.Valid() && pool.live == old(pool.live)[v.0 := (v, v.1)] && |pool.live| <= |old(pool.live)| + 1
    ensures pool.heap == if v.0 in old(pool.live) then old(pool.heap) else old(pool.heap) + multiset{(v.1, v.0)}
  {
    hide RankedBy, Aligned, Tracked, Agrees, Evicted, GivenUp, Inserted;
    AddSize(pool.live, v.0, (v, v.1));
    pool.Insert(v, k => 0);
  }

  function StaleItems(): Items<int, (int, nat)>
  {
    map[1 := ((1, 9), 9), 2 := ((2, 5), 5)]
  }

  /** Key 1 is inserted with priority 1, key 2 with 5, then key 1 again with 9; the heap still lists it
      under 1. */
  method InsertThree() returns (pool: PriorityPool<int, (int, nat)>)
    ensures fresh(pool) && pool.Valid() && pool.live == StaleItems() && pool.heap == multiset{(1, 1), (5, 2)}
  {
    pool := new PriorityPool(3, (v: (int, nat)) => v.0, (v: (int, nat)) => v.1);
    hide Tracked;
    Add(pool, (1, 1));
    assert pool.heap == multiset{(1, 1)} && 1 in pool.live && 2 !in pool.live;
    Add(pool, (2, 5));
    assert pool.heap == multiset{(1, 1), (5, 2)} && 1 in pool.live;
    Add(pool, (1, 9));
  }

  /** Without that the order is lost: key 2 comes out first. */
  method StaleRank() returns (first: Option<(int, nat)>, left: Items<int, (int, nat)>)
    ensures first == Some((2, 5)) && left == map[1 := ((1, 9), 9)]
  {
    var pool := InsertThree();
    LeadsIsTwo(pool.live, pool.heap);
    hide Tracked, Leads, Aligned, RankedBy, Popped;
    ghost var key;
    first, key := pool.Pop(k => 0);
    left := pool.live;
  }

  lemma LeadsIsTwo(live: Items<int, (int, nat)>, heap: Heap<int>)
    requires live == StaleItems() && heap == multiset{(1, 1), (5, 2)}
    ensures forall k :: Leads(live, heap, k) ==> k == 2
    ensures !Greatest(live, 2)
  {
    assert (5, 2) in heap;
    assert live[1].1 == 9;
  }
}

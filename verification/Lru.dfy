/** The cache of src/utils/lru.h: a list in order of use, and a map from keys to places in the list. */
module Lru {
  import opened Options

  predicate Distinct<T(==)>(s: seq<T>)
  {
    forall i, j :: 0 <= i < j < |s| ==> s[i] != s[j]
  }

  /** The sequence without an element. */
  function Erase<T(==)>(s: seq<T>, x: T): (r: seq<T>)
  {
    if s == [] then [] else if s[0] == x then s[1..] else [s[0]] + Erase(s[1..], x)
  }

  lemma {:induction false} EraseMember<T>(s: seq<T>, x: T, y: T)
    requires Distinct(s)
    ensures y in Erase(s, x) <==> y in s && y != x
    ensures |Erase(s, x)| == if x in s then |s| - 1 else |s|
  {
    if s != [] {
      assert s == [s[0]] + s[1..];
      if s[0] == x {
        assert x !in s[1..];
      } else {
        EraseMember(s[1..], x, y);
      }
    }
  }

  lemma {:induction false} EraseDistinct<T>(s: seq<T>, x: T)
    requires Distinct(s)
    ensures Distinct(Erase(s, x))
  {
    if s != [] && s[0] != x {
      EraseDistinct(s[1..], x);
      EraseMember(s[1..], x, s[0]);
      ConsDistinct(s[0], Erase(s[1..], x));
    }
  }

  lemma ConsDistinct<T>(x: T, s: seq<T>)
    requires Distinct(s) && x !in s
    ensures Distinct([x] + s)
  {
  }

  lemma {:induction false} EraseLast<T>(s: seq<T>)
    requires Distinct(s) && s != []
    ensures Erase(s, s[|s| - 1]) == s[..|s| - 1]
  {
    if |s| > 1 {
      EraseLast(s[1..]);
      assert s[1..][..|s| - 2] == s[1..|s| - 1];
    }
  }

  lemma {:induction false} EraseNothing<T>(s: seq<T>, x: T)
    requires x !in s
    ensures Erase(s, x) == s
  {
    if s != [] {
      EraseNothing(s[1..], x);
    }
  }

  // ---------- list and map ----------

  /** The keys of the list cells, in order. */
  function KeysOf<K, V>(order: seq<nat>, cells: map<nat, (K, V)>): (r: seq<K>)
  {
    if order == [] then []
    else if order[0] in cells then [cells[order[0]].0] + KeysOf(order[1..], cells)
    else KeysOf(order[1..], cells)
  }

  function Contents<K(==), V>(cells: map<nat, (K, V)>, index: map<K, nat>): map<K, V>
  {
    map k | k in index && index[k] in cells :: cells[index[k]].1
  }

  /** The list has each cell once. */
  ghost predicate Ordered<K, V>(cells: map<nat, (K, V)>, order: seq<nat>)
  {
    Distinct(order) && forall c :: c in order <==> c in cells
  }

  /** Every key of the map points to its own cell, and every cell is pointed to. */
  ghost predicate Points<K(!new), V>(cells: map<nat, (K, V)>, index: map<K, nat>)
  {
    && (forall k :: k in index ==> index[k] in cells && cells[index[k]].0 == k)
    && (forall c :: c in cells ==> cells[c].0 in index && index[cells[c].0] == c)
  }

  ghost predicate Linked<K(!new), V>(cells: map<nat, (K, V)>, order: seq<nat>, index: map<K, nat>, unused: nat)
  {
    Ordered(cells, order) && Points(cells, index) && forall c :: c in cells ==> c < unused
  }

  lemma {:induction false} KeysAt<K, V>(order: seq<nat>, cells: map<nat, (K, V)>)
    requires forall i :: 0 <= i < |order| ==> order[i] in cells
    ensures |KeysOf(order, cells)| == |order|
    ensures forall i :: 0 <= i < |order| ==> KeysOf(order, cells)[i] == cells[order[i]].0
  {
    if order != [] {
      KeysAt(order[1..], cells);
      assert forall i :: 0 < i < |order| ==> order[i] == order[1..][i - 1];
    }
  }

  /** The keys depend only on the keys in the cells of the list. */
  lemma {:induction false} KeysSame<K, V>(order: seq<nat>, cells: map<nat, (K, V)>, others: map<nat, (K, V)>)
    requires forall c :: c in order ==> c in cells && c in others && cells[c].0 == others[c].0
    ensures KeysOf(order, cells) == KeysOf(order, others)
  {
    if order != [] {
      KeysSame(order[1..], cells, others);
    }
  }

  lemma {:induction false} KeysErase<K, V>(order: seq<nat>, cells: map<nat, (K, V)>, c: nat)
    requires c in order && c in cells
    requires forall d :: d in order ==> d in cells && (cells[d].0 == cells[c].0 ==> d == c)
    ensures KeysOf(Erase(order, c), cells) == Erase(KeysOf(order, cells), cells[c].0)
  {
    assert order == [order[0]] + order[1..];
    assert order[0] in order;
    var rest := KeysOf(order[1..], cells);
    assert KeysOf(order, cells) == [cells[order[0]].0] + rest;
    assert ([cells[order[0]].0] + rest)[1..] == rest;
    if order[0] != c {
      KeysErase(order[1..], cells, c);
      assert Erase(order, c) == [order[0]] + Erase(order[1..], c);
      assert ([order[0]] + Erase(order[1..], c))[1..] == Erase(order[1..], c);
    }
  }

  /** The list holds the keys of the map, each once. */
  lemma LinkedKeys<K(!new), V>(cells: map<nat, (K, V)>, order: seq<nat>, index: map<K, nat>)
    requires Ordered(cells, order) && Points(cells, index)
    ensures Distinct(KeysOf(order, cells)) && |index| == |order| == |KeysOf(order, cells)|
    ensures forall k :: k in KeysOf(order, cells) <==> k in index
    ensures Contents(cells, index).Keys == index.Keys
  {
    var keys := KeysOf(order, cells);
    KeysAt(order, cells);
    hide KeysOf;
    forall i, j | 0 <= i < j < |keys|
      ensures keys[i] != keys[j]
    {
      assert order[i] in cells && order[j] in cells && order[i] != order[j];
    }
    forall k | k in index
      ensures k in keys
    {
      assert index[k] in order;
      var i :| 0 <= i < |order| && order[i] == index[k];
      assert keys[i] == k;
    }
    DistinctSize(keys);
    assert index.Keys == Elements(keys);
  }

  ghost function Elements<T(!new)>(s: seq<T>): (r: set<T>)
  {
    set i | 0 <= i < |s| :: s[i]
  }

  lemma {:induction false} DistinctSize<T(!new)>(s: seq<T>)
    requires Distinct(s)
    ensures |Elements(s)| == |s|
  {
    if s != [] {
      var init := s[..|s| - 1];
      assert Distinct(init);
      DistinctSize(init);
      ElementsSplit(s);
    }
  }

  lemma ElementsSplit<T(!new)>(s: seq<T>)
    requires Distinct(s) && s != []
    ensures s[|s| - 1] !in Elements(s[..|s| - 1])
    ensures Elements(s) == Elements(s[..|s| - 1]) + {s[|s| - 1]}
  {
    var init, last := s[..|s| - 1], s[|s| - 1];
    forall x
      ensures x in Elements(s) <==> x in Elements(init) || x == last
    {
      if x in Elements(s) {
        var i :| 0 <= i < |s| && s[i] == x;
        if i < |s| - 1 { assert init[i] == x; }
      }
      if x in Elements(init) {
        var i :| 0 <= i < |init| && init[i] == x;
        assert s[i] == x;
      }
    }
  }

  /** A new cell at the front. */
  lemma PointsAdd<K(!new), V>(cells: map<nat, (K, V)>, index: map<K, nat>, c: nat, key: K, value: V)
    requires Points(cells, index) && c !in cells && key !in index
    ensures Points(cells[c := (key, value)], index[key := c])
    ensures Contents(cells[c := (key, value)], index[key := c]) == Contents(cells, index)[key := value]
  {
  }

  lemma OrderedAdd<K, V>(cells: map<nat, (K, V)>, order: seq<nat>, c: nat, item: (K, V))
    requires Ordered(cells, order) && c !in cells
    ensures Ordered(cells[c := item], [c] + order)
  {
    ConsDistinct(c, order);
    hide Distinct;
    assert forall d :: d in [c] + order <==> d == c || d in order;
  }

  lemma KeysAdd<K, V>(cells: map<nat, (K, V)>, order: seq<nat>, c: nat, item: (K, V))
    requires Ordered(cells, order) && c !in cells
    ensures KeysOf([c] + order, cells[c := item]) == [item.0] + KeysOf(order, cells)
  {
    KeysSame(order, cells, cells[c := item]);
    assert ([c] + order)[1..] == order;
  }

  /** A cell taken out, wherever it is, and put back in front. */
  lemma PointsErase<K(!new), V>(cells: map<nat, (K, V)>, index: map<K, nat>, c: nat)
    requires Points(cells, index) && c in cells
    ensures Points(cells - {c}, index - {cells[c].0})
    ensures Contents(cells - {c}, index - {cells[c].0}) == Contents(cells, index) - {cells[c].0}
  {
  }

  lemma OrderedErase<K(!new), V>(cells: map<nat, (K, V)>, order: seq<nat>, c: nat)
    requires Ordered(cells, order) && c in cells
    ensures Ordered(cells - {c}, Erase(order, c)) && Ordered(cells, [c] + Erase(order, c))
    ensures |Erase(order, c)| == |order| - 1
  {
    EraseDistinct(order, c);
    forall d
      ensures d in Erase(order, c) <==> d in order && d != c
      ensures |Erase(order, c)| == |order| - 1
    {
      EraseMember(order, c, d);
    }
    ConsDistinct(c, Erase(order, c));
    hide Distinct, Erase;
    assert forall d :: d in [c] + Erase(order, c) <==> d == c || d in Erase(order, c);
  }

  lemma KeysMoved<K(!new), V>(cells: map<nat, (K, V)>, order: seq<nat>, index: map<K, nat>, c: nat)
    requires Ordered(cells, order) && Points(cells, index) && c in cells
    ensures KeysOf(Erase(order, c), cells - {c}) == Erase(KeysOf(order, cells), cells[c].0)
    ensures KeysOf([c] + Erase(order, c), cells) == [cells[c].0] + Erase(KeysOf(order, cells), cells[c].0)
  {
    KeysErase(order, cells, c);
    OrderedErase(cells, order, c);
    hide Distinct, Erase, KeysOf;
    KeysSame(Erase(order, c), cells, cells - {c});
    KeysCons(Erase(order, c), cells, c);
  }

  lemma KeysCons<K, V>(order: seq<nat>, cells: map<nat, (K, V)>, c: nat)
    requires c in cells
    ensures KeysOf([c] + order, cells) == [cells[c].0] + KeysOf(order, cells)
  {
    assert ([c] + order)[1..] == order;
  }

  lemma LinkedErase<K(!new), V>(cells: map<nat, (K, V)>, order: seq<nat>, index: map<K, nat>, unused: nat, key: K)
    requires Linked(cells, order, index, unused) && key in index
    ensures index[key] in cells && cells[index[key]] == (key, Contents(cells, index)[key])
    ensures Linked(cells - {index[key]}, Erase(order, index[key]), index - {key}, unused)
    ensures KeysOf(Erase(order, index[key]), cells - {index[key]}) == Erase(KeysOf(order, cells), key)
    ensures Contents(cells - {index[key]}, index - {key}) == Contents(cells, index) - {key}
    ensures |Erase(order, index[key])| == |order| - 1
  {
    var c := index[key];
    KeysMoved(cells, order, index, c);
    OrderedErase(cells, order, c);
    PointsErase(cells, index, c);
    hide Ordered, Erase, KeysOf;
  }

  lemma NotListed<K(!new), V>(cells: map<nat, (K, V)>, order: seq<nat>, index: map<K, nat>, key: K)
    requires Ordered(cells, order) && Points(cells, index) && key !in index
    ensures Erase(KeysOf(order, cells), key) == KeysOf(order, cells)
    ensures key !in Contents(cells, index) && Contents(cells, index) - {key} == Contents(cells, index)
  {
    assert key !in Contents(cells, index) && Contents(cells, index) - {key} == Contents(cells, index) by {
      hide Ordered, KeysOf, Erase, Distinct;
    }
    LinkedKeys(cells, order, index);
    hide *;
    EraseNothing(KeysOf(order, cells), key);
  }

  lemma LastKey<K(!new), V>(cells: map<nat, (K, V)>, order: seq<nat>, index: map<K, nat>)
    requires Ordered(cells, order) && Points(cells, index) && order != []
    ensures order[|order| - 1] in cells && |KeysOf(order, cells)| == |order|
    ensures var last, key := order[|order| - 1], KeysOf(order, cells)[|order| - 1];
            key in index && index[key] == last && cells[last].0 == key
  {
    hide Distinct;
    KeysAt(order, cells);
    hide KeysOf;
    assert order[|order| - 1] in order;
  }

  lemma LinkedLast<K(!new), V>(cells: map<nat, (K, V)>, order: seq<nat>, index: map<K, nat>)
    requires Ordered(cells, order) && Points(cells, index) && order != []
    ensures |KeysOf(order, cells)| == |order|
    ensures Erase(order, order[|order| - 1]) == order[..|order| - 1]
    ensures Erase(KeysOf(order, cells), KeysOf(order, cells)[|order| - 1]) == KeysOf(order, cells)[..|order| - 1]
  {
    LinkedKeys(cells, order, index);
    hide KeysOf, Erase, Points, Distinct;
    EraseLast(order);
    EraseLast(KeysOf(order, cells));
  }

  /** The last cell, with its key, taken out. */
  lemma LinkedPop<K(!new), V>(cells: map<nat, (K, V)>, order: seq<nat>, index: map<K, nat>, unused: nat, key: K,
                    last: nat, keys: seq<K>)
    requires Linked(cells, order, index, unused) && order != [] && last == order[|order| - 1]
    requires keys == KeysOf(order, cells) && |keys| == |order| && key == keys[|order| - 1]
    ensures last in cells && key in Contents(cells, index) && cells[last] == (key, Contents(cells, index)[key])
    ensures Linked(cells - {last}, order[..|order| - 1], index - {key}, unused)
    ensures KeysOf(order[..|order| - 1], cells - {last}) == keys[..|order| - 1]
    ensures Contents(cells - {last}, index - {key}) == Contents(cells, index) - {key}
  {
    LastKey(cells, order, index);
    LinkedLast(cells, order, index);
    hide Ordered, Points, KeysOf, Distinct, Erase;
    LinkedErase(cells, order, index, unused, key);
  }

  /** A new cell for a new key, at the front. */
  lemma LinkedAdd<K(!new), V>(cells: map<nat, (K, V)>, order: seq<nat>, index: map<K, nat>, unused: nat, key: K,
                    value: V)
    requires Linked(cells, order, index, unused) && key !in index
    ensures Linked(cells[unused := (key, value)], [unused] + order, index[key := unused], unused + 1)
    ensures KeysOf([unused] + order, cells[unused := (key, value)]) == [key] + KeysOf(order, cells)
    ensures Contents(cells[unused := (key, value)], index[key := unused]) == Contents(cells, index)[key := value]
    ensures key !in Contents(cells, index) && |KeysOf(order, cells)| == |order|
    ensures |index[key := unused]| == |order| + 1
  {
    PointsAdd(cells, index, unused, key, value);
    OrderedAdd(cells, order, unused, (key, value));
    KeysAdd(cells, order, unused, (key, value));
    LinkedKeys(cells, order, index);
    LinkedKeys(cells[unused := (key, value)], [unused] + order, index[key := unused]);
    hide Ordered, Points, KeysOf, Distinct;
  }

  /** Another value in the cell of a key. */
  lemma SetCell<K(!new), V>(cells: map<nat, (K, V)>, order: seq<nat>, index: map<K, nat>, key: K, value: V)
    requires Ordered(cells, order) && Points(cells, index) && key in index
    ensures var after := cells[index[key] := (key, value)];
            && Ordered(after, order) && Points(after, index)
            && KeysOf(order, after) == KeysOf(order, cells)
            && Contents(after, index) == Contents(cells, index)[key := value]
  {
    hide Distinct;
    KeysSame(order, cells, cells[index[key] := (key, value)]);
  }

  // ---------- what put does ----------

  /** The last of some keys and its item are gone. */
  ghost predicate Dropped<K, V>(items: map<K, V>, keys: seq<K>, capacity: nat, items': map<K, V>, keys': seq<K>,
                                evicted: Option<(K, V)>)
  {
    && |keys| == capacity + 1 && keys[capacity] in items
    && evicted == Some((keys[capacity], items[keys[capacity]]))
    && items' == items - {keys[capacity]} && keys' == keys[..capacity]
  }

  /** A known key comes to the front. A new one does too, and over capacity the last key leaves. */
  ghost predicate PutTo<K, V>(items: map<K, V>, keys: seq<K>, capacity: nat, key: K, value: V,
                              items': map<K, V>, keys': seq<K>, evicted: Option<(K, V)>)
  {
    if key in items then evicted == None && items' == items[key := value] && keys' == [key] + Erase(keys, key)
    else if |keys| < capacity then evicted == None && items' == items[key := value] && keys' == [key] + keys
    else Dropped(items[key := value], [key] + keys, capacity, items', keys', evicted)
  }

  class LruCache<K(==, !new), V> {
    const capacity: nat
    var cells: map<nat, (K, V)>
    var order: seq<nat>
    var index: map<K, nat>
    var unused: nat

    ghost predicate Valid()
      reads this
    {
      Linked(cells, order, index, unused) && |order| <= capacity
    }

    /** The keys, the most recently used first. */
    function Keys(): seq<K>
      reads this
    {
      KeysOf(order, cells)
    }

    function Map(): map<K, V>
      reads this
    {
      Contents(cells, index)
    }

    /** List and map hold the same distinct keys, at most as many as the capacity. */
    lemma Consistent()
      requires Valid()
      ensures Distinct(Keys()) && |Keys()| == |Map()| <= capacity
      ensures forall k :: k in Keys() <==> k in Map()
    {
      LinkedKeys(cells, order, index);
      assert Map().Keys == index.Keys;
    }

    constructor (capacity: nat)
      ensures Valid() && Keys() == [] && Map() == map[] && this.capacity == capacity
    {
      this.capacity := capacity;
      cells, order, index, unused := map[], [], map[], 0;
    }

    method Get(key: K) returns (r: Option<V>)
      requires Valid()
      modifies this`order
      ensures Valid() && Map() == old(Map())
      ensures r == if key in Map() then Some(Map()[key]) else None
      ensures Keys() == if r.Some? then [key] + Erase(old(Keys()), key) else old(Keys())
    {
      if key !in index {
        return None;
      }
      var c := index[key];
      KeysMoved(cells, order, index, c);
      OrderedErase(cells, order, c);
      hide Ordered, KeysOf, Erase;
      order := [c] + Erase(order, c);
      return Some(cells[c].1);
    }

    /** What a change of the object behind a cached pointer does. */
    method Set(key: K, value: V)
      requires Valid() && key in Map()
      modifies this`cells
      ensures Valid() && Map() == old(Map())[key := value] && Keys() == old(Keys())
    {
      SetCell(cells, order, index, key, value);
      hide Ordered, KeysOf, Points;
      cells := cells[index[key] := (key, value)];
    }

    method Put(key: K, value: V) returns (evicted: Option<(K, V)>)
      requires Valid()
      modifies this
      ensures Valid()
      ensures PutTo(old(Map()), old(Keys()), capacity, key, value, Map(), Keys(), evicted)
    {
      if key in index {
        PutOld(key, value);
        hide *;
        return None;
      }
      evicted := PutNew(key, value);
    }

    /** A key that is there gets the value and comes to the front. */
    method PutOld(key: K, value: V)
      requires Valid() && key in index
      modifies this
      ensures Valid() && PutTo(old(Map()), old(Keys()), capacity, key, value, Map(), Keys(), None)
    {
      assert key in Map();
      hide Ordered, KeysOf, Points, Distinct, Contents;
      Set(key, value);
      var _ := Get(key);
    }

    /** A new key comes to the front, and over capacity the last one leaves. */
    method PutNew(key: K, value: V) returns (evicted: Option<(K, V)>)
      requires Valid() && key !in index
      modifies this
      ensures Valid() && PutTo(old(Map()), old(Keys()), capacity, key, value, Map(), Keys(), evicted)
    {
      LinkedAdd(cells, order, index, unused, key, value);
      hide *;
      cells, order, index, unused := cells[unused := (key, value)], [unused] + order, index[key := unused], unused + 1;
      if |index| <= capacity {
        return None;
      }
      evicted := PopBack();
    }

    /** The last cell leaves list and map. */
    method PopBack() returns (evicted: Option<(K, V)>)
      requires Linked(cells, order, index, unused) && |order| == capacity + 1
      modifies this
      ensures Valid() && Dropped(old(Map()), old(Keys()), capacity, Map(), Keys(), evicted)
    {
      var last := order[capacity];
      LastKey(cells, order, index);
      LinkedPop(cells, order, index, unused, cells[last].0, last, KeysOf(order, cells));
      hide *;
      evicted := Some(cells[last]);
      cells, order, index := cells - {last}, order[..capacity], index - {cells[last].0};
    }

    method Remove(key: K) returns (r: Option<V>)
      requires Valid()
      modifies this
      ensures Valid()
      ensures r == if key in old(Map()) then Some(old(Map())[key]) else None
      ensures Map() == old(Map()) - {key} && Keys() == Erase(old(Keys()), key)
    {
      if key !in index {
        NotListed(cells, order, index, key);
        hide *;
        return None;
      }
      var c := index[key];
      LinkedErase(cells, order, index, unused, key);
      r := Some(cells[c].1);
      hide *;
      cells, order, index := cells - {c}, Erase(order, c), index - {key};
    }
  }
}

/** prune and justify as they run, over the allocator (branch.cpp:419-510, leaf.cpp:325-448). */
module BlockMethods {
  import opened TrieTypes
  import opened Pruning
  import opened Justifying
  import opened Allocator
  import opened Lru
  import opened TrieMethods

  /** Every path fits in a node id. */
  ghost predicate Short(st: Store)
  {
    forall id :: id in st ==> |id.path| <= PATH_SIZE
  }

  ghost predicate Within(st: Store, st': Store)
  {
    forall id :: id in st' ==> id in st
  }

  // ---------- prune ----------

  lemma PruneUnfold(st: Store, id: NodeId, b: BlockId)
    requires Short(st) && id in st
    ensures |id.path| <= PATH_SIZE
    ensures var rest := if st[id].Branch? then PruneChildren(st, id, st[id].children, b, 0) else st;
            && PruneAt(st, id, b) == rest - {id}
            && (Within(st, rest) ==> Within(st, rest - {id}))
  {
  }

  lemma SetAndDrop(st: Store, id: NodeId, n: Node)
    ensures st[id := n] - {id} == st - {id}
  {
  }

  /** Branch::prune and Leaf::prune. */
  method Prune(a: NodeAllocator, id: NodeId, b: BlockId, ghost hot: set<NodeId>, ghost room: nat)
    returns (ghost hot': set<NodeId>)
    requires a.Calm(hot, room) && id in hot && Short(a.Flat()) && room + |id.path| > PATH_SIZE
    requires Ordinary(id)
    modifies a, a.cache
    ensures a.Flat() == PruneAt(old(a.Flat()), id, b) && Within(old(a.Flat()), a.Flat())
    ensures a.Calm(hot', room + 1)
    ensures forall x :: x in hot && |x.path| < |id.path| ==> x in hot'
    decreases PATH_SIZE - |id.path|, 2
  {
    var n := Held(a, id, hot, room);
    PruneUnfold(a.Flat(), id, b);
    hide *;
    hot' := hot;
    if n.Branch? {
      hot' := PruneLoop(a, id, n.children, b, hot, room);
      SetAndDrop(a.Flat(), id, Branch(n.commit, []));
      a.SetNode(id, Branch(n.commit, []), hot', room);
    }
    var _ := a.DeleteNode(id, hot', room);
    hot' := hot' - {id};
  }

  method PruneLoop(a: NodeAllocator, id: NodeId, cs: seq<Child>, b: BlockId, ghost hot: set<NodeId>, ghost room: nat)
    returns (ghost hot': set<NodeId>)
    requires a.Calm(hot, room) && Short(a.Flat()) && |id.path| <= PATH_SIZE && room + |id.path| > PATH_SIZE
    modifies a, a.cache
    ensures a.Flat() == PruneChildren(old(a.Flat()), id, cs, b, 0) && Within(old(a.Flat()), a.Flat())
    ensures a.Calm(hot', room)
    ensures forall x :: x in hot && |x.path| <= |id.path| ==> x in hot'
    decreases PATH_SIZE - |id.path|, 1
  {
    ghost var st := a.Flat();
    WithinSelf(st);
    hide *;
    hot' := hot;
    for i := 0 to |cs|
      invariant a.Calm(hot', room) && Within(st, a.Flat())
      invariant PruneChildren(a.Flat(), id, cs, b, i) == PruneChildren(st, id, cs, b, 0)
      invariant forall x :: x in hot && |x.path| <= |id.path| ==> x in hot'
    {
      hide *;
      PruneNext(a.Flat(), id, cs, b, i);
      ghost var now := a.Flat();
      ShortWithin(st, now);
      hot' := PruneEntry(a, id, cs[i], b, hot', room);
      WithinBoth(st, now, a.Flat());
    }
    PruneEnd(a.Flat(), id, cs, b);
  }

  /** One entry: a child of the block that is there is pruned. */
  method PruneEntry(a: NodeAllocator, id: NodeId, entry: Child, b: BlockId, ghost hot: set<NodeId>, ghost room: nat)
    returns (ghost hot': set<NodeId>)
    requires a.Calm(hot, room) && Short(a.Flat()) && |id.path| <= PATH_SIZE && room + |id.path| > PATH_SIZE
    modifies a, a.cache
    ensures var next := Below(id, entry.anchor, b);
            a.Flat() == if entry.blk != b || next !in old(a.Flat()) then old(a.Flat()) else PruneAt(old(a.Flat()), next, b)
    ensures Within(old(a.Flat()), a.Flat()) && a.Calm(hot', room)
    ensures forall x :: x in hot && |x.path| <= |id.path| ==> x in hot'
    decreases PATH_SIZE - |id.path|, 0
  {
    hide CalmAt, Contents, KeysOf, Linked, Leaves, Rooted, Clear, PruneAt, Short;
    hot' := hot;
    if entry.blk != b {
      return;
    }
    var next := Below(id, entry.anchor, b);
    var child, _ := a.LoadNode(next, hot, room);
    if child.Some? {
      hot' := Prune(a, next, b, hot + {next}, room - 1);
    }
  }

  lemma WithinSelf(st: Store)
    ensures Within(st, st) && PATH_SIZE < ACCOUNT_SIZE
  {
  }

  lemma ShortWithin(st: Store, st': Store)
    requires Short(st) && Within(st, st')
    ensures Short(st')
  {
  }

  lemma WithinBoth(st: Store, st1: Store, st2: Store)
    requires Within(st, st1) && Within(st1, st2)
    ensures Within(st, st2)
  {
  }

  lemma PruneNext(st: Store, id: NodeId, cs: seq<Child>, b: BlockId, i: nat)
    requires |id.path| < ACCOUNT_SIZE && i < |cs|
    ensures var next := Below(id, cs[i].anchor, b);
            PruneChildren(st, id, cs, b, i)
            == if cs[i].blk != b || next !in st then PruneChildren(st, id, cs, b, i + 1)
               else PruneChildren(PruneAt(st, next, b), id, cs, b, i + 1)
  {
  }

  lemma PruneEnd(st: Store, id: NodeId, cs: seq<Child>, b: BlockId)
    requires |id.path| < ACCOUNT_SIZE
    ensures PruneChildren(st, id, cs, b, |cs|) == st
  {
  }

  // ---------- justify ----------

  /** The nodes of a block. */
  ghost function NodesOf(st: Store, b: BlockId): set<NodeId>
  {
    set id | id in st && id.blk == b
  }

  /** The nodes of b point only to nodes of b and to canonical ones. */
  ghost predicate OverCanonical(st: Store, b: BlockId)
  {
    forall id :: id in st && id.blk == b ==> OnlyTwo(st[id], b)
  }

  ghost predicate Ready(st: Store, b: BlockId)
  {
    b != CANONICAL && Short(st) && OverCanonical(st, b)
  }

  /** The end of justify: the node leaves the block and becomes the canonical one. */
  lemma SettleReady(st: Store, id: NodeId, n: Node, b: BlockId)
    requires Ready(st, b) && id in st && id.blk == b
    ensures Ready(st - {id}, b) && Ready(Settle(st, id, n, b), b)
    ensures |NodesOf(st - {id}, b)| == |NodesOf(Settle(st, id, n, b), b)| == |NodesOf(st, b)| - 1
  {
    assert NodesOf(st - {id}, b) == NodesOf(st, b) - {id};
    assert NodesOf(Settle(st, id, n, b), b) == NodesOf(st, b) - {id};
  }

  lemma JustifyUnfold(st: Store, id: NodeId, b: BlockId)
    requires Ready(st, b) && id in st && id.blk == b
    ensures |id.path| <= PATH_SIZE && OnlyTwo(st[id], b)
    ensures st[id].Leaf? ==>
              JustifyAt(st, id, b) == (Ok, Settle(st, id, st[id].(slotBlks := ClearedBlks(st[id].slotBlks)), b))
    ensures st[id].Branch? ==>
              var cs, r := st[id].children, JustifyChildren(st, id, st[id].children, b, 0);
              JustifyAt(st, id, b)
              == if r.0 != Ok then r
                 else if cs == [] then (Deleted, r.1 - {id})
                 else (Ok, Settle(r.1, id, Branch(st[id].commit, Cleared(cs)), b))
  {
    hide Settle, Cleared, ClearedBlks;
  }

  /** Branch::justify and Leaf::justify for a node of the block. Every node of the block is loaded once
      and cached once more as a canonical one. */
  method Justify(a: NodeAllocator, id: NodeId, b: BlockId, ghost hot: set<NodeId>, ghost room: nat)
    returns (rc: Code, ghost hot': set<NodeId>, ghost left: nat)
    requires a.Calm(hot, room) && id in hot && id.blk == b && Ready(a.Flat(), b)
    requires room + |id.path| >= |NodesOf(a.Flat(), b)| + PATH_SIZE
    modifies a, a.cache
    ensures (rc, a.Flat()) == JustifyAt(old(a.Flat()), id, b)
    ensures a.Calm(hot', left)
    ensures rc == Ok || rc == Deleted ==>
              Ready(a.Flat(), b) && left + |NodesOf(old(a.Flat()), b)| >= room + 1 + |NodesOf(a.Flat(), b)|
    ensures rc == Ok || rc == Deleted ==> forall x :: x in hot && |x.path| < |id.path| ==> x in hot'
    decreases PATH_SIZE - |id.path|
  {
    var n := Held(a, id, hot, room);
    JustifyUnfold(a.Flat(), id, b);
    SomeNode(a.Flat(), id);
    assert n.Branch? && n.children != [] ==> Cleared(n.children) != [];
    if n.Leaf? {
      hide *;
      rc, hot', left := Become(a, id, n.(slotBlks := ClearedBlks(n.slotBlks)), b, hot, room);
      return;
    }
    hide *;
    rc, hot', left := JustifyLoop(a, id, n.children, b, hot, room);
    if rc != Ok {
      return;
    }
    if n.children == [] {
      rc, hot', left := Vanish(a, id, b, hot', left);
    } else {
      rc, hot', left := Become(a, id, Branch(n.commit, Cleared(n.children)), b, hot', left);
    }
  }

  /** The node is deleted under its own id and cached as the canonical one. */
  method Become(a: NodeAllocator, id: NodeId, n: Node, b: BlockId, ghost hot: set<NodeId>, ghost room: nat)
    returns (rc: Code, ghost hot': set<NodeId>, ghost left: nat)
    requires a.Calm(hot, room) && room > 0 && id in hot && id.blk == b && Ready(a.Flat(), b) && n != Branch(0, [])
    modifies a, a.cache
    ensures rc == Ok && a.Flat() == Settle(old(a.Flat()), id, n, b) && Ready(a.Flat(), b)
    ensures a.Calm(hot', left) && left + |NodesOf(old(a.Flat()), b)| == room + 1 + |NodesOf(a.Flat(), b)|
    ensures forall x :: x in hot && |x.path| < |id.path| ==> x in hot'
  {
    var _ := Held(a, id, hot, room);
    SettleReady(a.Flat(), id, n, b);
    assert b != CANONICAL;
    hide CalmAt, Contents, KeysOf, Linked, Ready, NodesOf, Leaves, Rooted, Clear;
    var _ := a.DeleteNode(id, hot, room);
    var _ := a.CacheNode(NodeId(id.path, CANONICAL), n, hot - {id}, room + 1);
    return Ok, hot - {id} + {NodeId(id.path, CANONICAL)}, room;
  }

  /** A branch without children only goes. */
  method Vanish(a: NodeAllocator, id: NodeId, b: BlockId, ghost hot: set<NodeId>, ghost room: nat)
    returns (rc: Code, ghost hot': set<NodeId>, ghost left: nat)
    requires a.Calm(hot, room) && room > 0 && id in hot && id.blk == b && Ready(a.Flat(), b)
    modifies a, a.cache
    ensures rc == Deleted && a.Flat() == old(a.Flat()) - {id} && Ready(a.Flat(), b)
    ensures a.Calm(hot', left) && left + |NodesOf(old(a.Flat()), b)| == room + 1 + |NodesOf(a.Flat(), b)|
    ensures forall x :: x in hot && |x.path| < |id.path| ==> x in hot'
  {
    var n := Held(a, id, hot, room);
    SettleReady(a.Flat(), id, n, b);
    hide CalmAt, Contents, KeysOf, Linked, Ready, NodesOf;
    var _ := a.DeleteNode(id, hot, room);
    return Deleted, hot - {id}, room;
  }

  lemma SomeNode(st: Store, id: NodeId)
    requires id in st
    ensures |NodesOf(st, id.blk)| > 0
  {
    assert id in NodesOf(st, id.blk);
  }

  lemma JustifyNext(st: Store, id: NodeId, cs: seq<Child>, b: BlockId, i: nat)
    requires |id.path| < ACCOUNT_SIZE && i < |cs|
    ensures var next := Below(id, cs[i].anchor, cs[i].blk);
            var r := JustifyAt(st, next, b);
            JustifyChildren(st, id, cs, b, i)
            == if cs[i].blk == CANONICAL then JustifyChildren(st, id, cs, b, i + 1)
               else if next !in st then (LoadNodeErr, st)
               else if r.0 != Ok && r.0 != Deleted then r
               else JustifyChildren(r.1, id, cs, b, i + 1)
  {
    hide Settle, Cleared, ClearedBlks;
  }

  lemma StillThere(a: NodeAllocator, id: NodeId, hot: set<NodeId>, room: nat)
    requires a.Calm(hot, room) && id in hot
    ensures |NodesOf(a.Flat(), id.blk)| > 0
  {
    HotResident(a.cache, hot, id);
    SomeNode(a.Flat(), id);
  }

  lemma JustifyEnd(st: Store, id: NodeId, cs: seq<Child>, b: BlockId)
    requires |id.path| < ACCOUNT_SIZE
    ensures JustifyChildren(st, id, cs, b, |cs|) == (Ok, st)
  {
  }

  method JustifyLoop(a: NodeAllocator, id: NodeId, cs: seq<Child>, b: BlockId, ghost hot: set<NodeId>, ghost room: nat)
    returns (rc: Code, ghost hot': set<NodeId>, ghost left: nat)
    requires a.Calm(hot, room) && id in hot && id.blk == b && Ready(a.Flat(), b) && OnlyTwo(Branch(0, cs), b)
    requires |id.path| <= PATH_SIZE && room + |id.path| >= |NodesOf(a.Flat(), b)| + PATH_SIZE
    modifies a, a.cache
    ensures rc != Deleted && (rc, a.Flat()) == JustifyChildren(old(a.Flat()), id, cs, b, 0)
    ensures a.Calm(hot', left)
    ensures rc == Ok ==>
              Ready(a.Flat(), b) && left > 0 && left + |NodesOf(old(a.Flat()), b)| >= room + |NodesOf(a.Flat(), b)|
    ensures rc == Ok ==> forall x :: x in hot && |x.path| <= |id.path| ==> x in hot'
    decreases PATH_SIZE - |id.path|, 0
  {
    ghost var st := a.Flat();
    hide CalmAt, Contents, KeysOf, Linked, NodesOf, JustifyAt, JustifyChildren, Ready, Leaves;
    hot', left, rc := hot, room, Ok;
    for i := 0 to |cs|
      invariant a.Calm(hot', left) && Ready(a.Flat(), b)
      invariant left + |NodesOf(st, b)| >= room + |NodesOf(a.Flat(), b)|
      invariant JustifyChildren(a.Flat(), id, cs, b, i) == JustifyChildren(st, id, cs, b, 0)
      invariant forall x :: x in hot && |x.path| <= |id.path| ==> x in hot'
    {
      JustifyNext(a.Flat(), id, cs, b, i);
      StillThere(a, id, hot', left);
      if cs[i].blk == CANONICAL {
        continue;
      }
      var next := Below(id, cs[i].anchor, cs[i].blk);
      var child, _ := a.LoadNode(next, hot', left);
      if child.None? {
        return LoadNodeErr, hot', left;
      }
      rc, hot', left := Justify(a, next, b, hot' + {next}, left - 1);
      if rc != Ok && rc != Deleted {
        return;
      }
    }
    StillThere(a, id, hot', left);
    JustifyEnd(a.Flat(), id, cs, b);
    rc := Ok;
  }
}

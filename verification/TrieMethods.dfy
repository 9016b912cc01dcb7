/** The methods of branches and leaves as they run, over the allocator (branch.cpp:163-352,
    leaf.cpp:150-307). Each is proved against its function on the flat store. */
module TrieMethods {
  import opened Options
  import opened TrieTypes
  import opened Children
  import opened Trie
  import opened TrieOps
  import opened LedgerSpec
  import opened Allocator
  import opened Lru

  /** No branch below a root has so many children that its one count byte overflows: recache writes it. */
  ghost predicate Small(st: Store)
  {
    forall id :: id in st && id.path != [] && st[id].Branch? ==> |st[id].children| < 256
  }

  /** A node that b, which is not canonical, may write: its own root, or any node below a root. */
  predicate InBlock(id: NodeId, b: BlockId)
  {
    b != CANONICAL && (id.path != [] || id.blk == b)
  }

  /** matching_path: nothing if the account bytes from the level on agree, else how many agree. */
  method MatchingPath(path: Hash, key: Hash, level: nat) returns (r: Option<nat>)
    requires level <= ACCOUNT_SIZE
    ensures r.None? <==> SamePath(path, key, level)
    ensures r.Some? ==>
              && level + r.value < ACCOUNT_SIZE && path[level + r.value] != key[level + r.value]
              && path[level..level + r.value] == key[level..level + r.value]
  {
    var matched := level;
    while matched < ACCOUNT_SIZE && path[matched] == key[matched]
      invariant level <= matched <= ACCOUNT_SIZE
      invariant path[level..matched] == key[level..matched]
    {
      assert path[level..matched + 1] == path[level..matched] + [path[matched]];
      assert key[level..matched + 1] == key[level..matched] + [key[matched]];
      matched := matched + 1;
    }
    if matched == ACCOUNT_SIZE {
      return None;
    }
    assert path[level..ACCOUNT_SIZE][matched - level] != key[level..ACCOUNT_SIZE][matched - level];
    return Some(matched - level);
  }

  /** get_next_id */
  method GetNextId(id: NodeId, cs: seq<Child>, nib: Byte) returns (r: Option<NodeId>)
    ensures r == match Next(cs, nib) case None => None case Some(b) => Some(Below(id, nib, b))
  {
    var child := GetChild(cs, nib);
    if child.None? || cs[child.value].sk == 0 {
      return None;
    }
    return Some(Below(id, nib, cs[child.value].blk));
  }

  /** The node behind a pointer that an operation holds. */
  method Held(a: NodeAllocator, id: NodeId, ghost hot: set<NodeId>, ghost room: nat) returns (n: Node)
    requires a.Calm(hot, room) && id in hot
    ensures id in a.Flat() && n == a.Flat()[id]
  {
    HotResident(a.cache, hot, id);
    n := a.cache.Map()[id];
  }

  /** Going over to the writing block: nothing to do if the node has it, else recache. */
  method Adopt(a: NodeAllocator, id: NodeId, n: Node, n': Node, b: BlockId, ghost hot: set<NodeId>, ghost room: nat)
    returns (rc: Code, ghost hot': set<NodeId>)
    requires a.Calm(hot, room) && id in hot && id in a.Flat() && a.Flat()[id] == n
    requires id.blk != b && n.Branch? ==> |n.children| < 256
    requires InBlock(id, b)
    modifies a, a.cache
    ensures rc == Ok && a.Calm(hot', room) && a.Flat() == old(a.Flat())[NodeId(id.path, b) := n']
    ensures forall x :: x in hot && |x.path| < |id.path| ==> x in hot'
  {
    hide CalmAt, Contents, KeysOf, Linked;
    hot' := hot;
    rc := Ok;
    var self := NodeId(id.path, b);
    if id.blk != b {
      assert Recoded(n) == n;
      rc := a.Recache(id, self, hot, room);
      hot' := hot - {id} + {self};
    } else {
      assert id == self;
    }
    a.SetNode(self, n', hot', room);
  }

  lemma ReplaceOnLeaf(st: Store, id: NodeId, key: Hash, val: Hash, prev: Option<Hash>, b: BlockId)
    requires Good(st) && id in st && st[id].Leaf?
    ensures |id.path| < ACCOUNT_SIZE
    ensures var r := ReplaceLeaf(st[id], |id.path|, key, val, prev, b);
            ReplaceAt(st, id, key, val, prev, b) == (r.0, if r.0 == Ok then st[NodeId(id.path, b) := r.1] else st)
  {
    assert NodeOk(st, id, st[id]);
    hide Good, ReplaceLeaf;
  }

  /** What a branch needs to know when its child was changed. */
  lemma ReplaceOnBranch(st: Store, id: NodeId, key: Hash, val: Hash, prev: Option<Hash>, b: BlockId)
    requires Good(st) && id in st && st[id].Branch?
    ensures |id.path| < PATH_SIZE && Sorted(st[id].children)
    ensures var nib := key[|id.path|];
            var next := Next(st[id].children, nib);
            if next.None? then ReplaceAt(st, id, key, val, prev, b) == (NotExist, st)
            else
              var c := Below(id, nib, next.value);
              var r := ReplaceAt(st, c, key, val, prev, b);
              && (c !in st ==> ReplaceAt(st, id, key, val, prev, b) == (LoadNodeErr, st))
              && ReplaceAt(st, id, key, val, prev, b)
                 == (r.0,
                     if r.0 == Ok then r.1[NodeId(id.path, b) := Branch(st[id].commit, Insert(st[id].children, nib, b))]
                     else r.1)
              && (r.0 == Ok ==> id in r.1 && r.1[id] == st[id])
  {
    assert NodeOk(st, id, st[id]);
    var nib := key[|id.path|];
    NextOk(st, id, st[id].children, nib);
    var next := Next(st[id].children, nib);
    hide Next, Good, Sorted;
    if next.Some? {
      var c := Below(id, nib, next.value);
      ReplaceStep(st, id, key, val, prev, b, next.value);
      if ReplaceAt(st, c, key, val, prev, b).0 == Ok {
        ReplaceConfined(st, c, key, val, prev, b);
      }
    }
  }

  /** Leaf::replace and Branch::replace. */
  method Replace(a: NodeAllocator, id: NodeId, key: Hash, val: Hash, prev: Option<Hash>, b: BlockId,
                 ghost hot: set<NodeId>, ghost room: nat)
    returns (rc: Code, ghost hot': set<NodeId>, ghost left: nat)
    requires a.Calm(hot, room) && id in hot && Good(a.Flat()) && Small(a.Flat())
    requires room + |id.path| >= ACCOUNT_SIZE
    requires InBlock(id, b)
    modifies a, a.cache
    ensures (rc, a.Flat()) == ReplaceAt(old(a.Flat()), id, key, val, prev, b)
    ensures a.Calm(hot', left) && left + ACCOUNT_SIZE >= room + |id.path|
    ensures forall x :: x in hot && |x.path| < |id.path| ==> x in hot'
    decreases ACCOUNT_SIZE - |id.path|, 2
  {
    var n := Held(a, id, hot, room);
    if n.Branch? {
      hide *;
      rc, hot', left := ReplaceInBranch(a, id, n, key, val, prev, b, hot, room);
      return;
    }
    ReplaceOnLeaf(a.Flat(), id, key, val, prev, b);
    hide CalmAt, Contents, KeysOf, Linked, Good, Small, ReplaceAt, ReplaceLeaf, SamePath;
    hot', left := hot, room;
    var n';
    rc, n' := ReplaceInLeaf(n, |id.path|, key, val, prev, b);
    if rc == Ok {
      rc, hot' := Adopt(a, id, n, n', b, hot, room);
    }
  }

  method ReplaceInBranch(a: NodeAllocator, id: NodeId, n: Node, key: Hash, val: Hash, prev: Option<Hash>, b: BlockId,
                         ghost hot: set<NodeId>, ghost room: nat)
    returns (rc: Code, ghost hot': set<NodeId>, ghost left: nat)
    requires a.Calm(hot, room) && id in hot && Good(a.Flat()) && Small(a.Flat())
    requires room + |id.path| >= ACCOUNT_SIZE
    requires InBlock(id, b)
    requires id in a.Flat() && a.Flat()[id] == n && n.Branch?
    modifies a, a.cache
    ensures (rc, a.Flat()) == ReplaceAt(old(a.Flat()), id, key, val, prev, b)
    ensures a.Calm(hot', left) && left + ACCOUNT_SIZE >= room + |id.path|
    ensures forall x :: x in hot && |x.path| < |id.path| ==> x in hot'
    decreases ACCOUNT_SIZE - |id.path|, 0
  {
    assert id.blk != b ==> |n.children| < 256;
    ReplaceOnBranch(a.Flat(), id, key, val, prev, b);
    hide CalmAt, Contents, KeysOf, Linked, Rooted, Clear, Good, Small, ReplaceAt, Next, Insert, Sorted;
    var nib := key[|id.path|];
    var next := GetNextId(id, n.children, nib);
    if next.None? {
      return NotExist, hot, room;
    }
    rc, hot', left := ReplaceBelow(a, next.value, key, val, prev, b, hot, room);
    if rc == Ok {
      var cs := InsertChild(n.children, nib, b);
      rc, hot' := Adopt(a, id, n, Branch(n.commit, cs), b, hot', left);
    }
  }

  /** The child of a branch: loaded and asked. */
  method ReplaceBelow(a: NodeAllocator, next: NodeId, key: Hash, val: Hash, prev: Option<Hash>, b: BlockId,
                      ghost hot: set<NodeId>, ghost room: nat)
    returns (rc: Code, ghost hot': set<NodeId>, ghost left: nat)
    requires a.Calm(hot, room) && Good(a.Flat()) && Small(a.Flat())
    requires |next.path| <= ACCOUNT_SIZE < room + |next.path|
    requires b != CANONICAL && next.path != []
    modifies a, a.cache
    ensures next !in old(a.Flat()) ==> (rc, a.Flat()) == (LoadNodeErr, old(a.Flat()))
    ensures next in old(a.Flat()) ==> (rc, a.Flat()) == ReplaceAt(old(a.Flat()), next, key, val, prev, b)
    ensures a.Calm(hot', left) && left + ACCOUNT_SIZE + 1 >= room + |next.path|
    ensures forall x :: x in hot && |x.path| < |next.path| ==> x in hot'
    decreases ACCOUNT_SIZE - |next.path|, 3
  {
    hide CalmAt, Contents, KeysOf, Linked, Good, Small, ReplaceAt, Leaves;
    var child, _ := a.LoadNode(next, hot, room);
    if child.None? {
      return LoadNodeErr, hot, room;
    }
    rc, hot', left := Replace(a, next, key, val, prev, b, hot + {next}, room - 1);
  }

  method ReplaceInLeaf(n: Node, level: nat, key: Hash, val: Hash, prev: Option<Hash>, b: BlockId)
    returns (rc: Code, n': Node)
    requires n.Leaf? && level <= ACCOUNT_SIZE
    ensures (rc, n') == ReplaceLeaf(n, level, key, val, prev, b)
  {
    var nib := key[ACCOUNT_SIZE];
    if nib == 0 {
      return LeafIdxZero, n;
    }
    var matching := MatchingPath(n.path, key, level);
    if matching.Some? {
      return NotExist, n;
    }
    if nib >= |n.slots| || nib >= |n.slotBlks| {
      return LoadNodeErr, n;
    }
    if prev.Some? && n.slots[nib] != prev.value {
      return InvalidPrevValHash, n;
    }
    return Ok, n.(slots := n.slots[nib := val], slotBlks := n.slotBlks[nib := b]);
  }
}

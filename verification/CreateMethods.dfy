/** create_account as it runs, over the allocator (branch.cpp:302-352, leaf.cpp:253-307). */
module CreateMethods {
  import opened Options
  import opened TrieTypes
  import opened Children
  import opened Trie
  import opened TrieOps
  import opened LedgerSpec
  import opened Allocator
  import opened Lru
  import opened TrieMethods

  // ---------- the branches of a split ----------

  /** The branches a split makes, from the top down. */
  function Levels(path: seq<Byte>, b: BlockId, leaf: Hash, key: Hash): (r: seq<(NodeId, Node)>)
    decreases ACCOUNT_SIZE - |path|
  {
    if |path| >= ACCOUNT_SIZE then []
    else
      var nib, old_ := key[|path|], leaf[|path|];
      if nib == old_ then [(NodeId(path, b), Branch(0, Insert([], nib, b)))] + Levels(path + [nib], b, leaf, key)
      else [(NodeId(path, b), Branch(0, Insert(Insert([], nib, b), old_, b)))]
  }

  function SetAll(st: Store, ps: seq<(NodeId, Node)>): (r: Store)
  {
    if ps == [] then st else SetAll(st, ps[..|ps| - 1])[ps[|ps| - 1].0 := ps[|ps| - 1].1]
  }

  /** The two accounts agree on this many bytes after the path, and part there. */
  ghost predicate PartAfter(path: seq<Byte>, leaf: Hash, key: Hash, shared: nat)
  {
    && |path| + shared < ACCOUNT_SIZE
    && leaf[|path|..|path| + shared] == key[|path|..|path| + shared]
    && leaf[|path| + shared] != key[|path| + shared]
  }

  lemma PartStep(path: seq<Byte>, leaf: Hash, key: Hash, shared: nat)
    requires PartAfter(path, leaf, key, shared) && shared > 0
    ensures leaf[|path|] == key[|path|] && PartAfter(path + [key[|path|]], leaf, key, shared - 1)
    ensures path + [key[|path|]] + key[|path| + 1..|path| + shared] == path + key[|path|..|path| + shared]
  {
    assert leaf[|path|..|path| + shared][0] == key[|path|..|path| + shared][0];
    assert leaf[|path| + 1..|path| + shared] == leaf[|path|..|path| + shared][1..];
    assert key[|path| + 1..|path| + shared] == key[|path|..|path| + shared][1..];
    assert key[|path|..|path| + shared] == [key[|path|]] + key[|path| + 1..|path| + shared];
  }

  lemma {:induction false} LevelsDeep(path: seq<Byte>, b: BlockId, leaf: Hash, key: Hash, shared: nat)
    requires PartAfter(path, leaf, key, shared)
    ensures |Levels(path, b, leaf, key)| == shared + 1
    ensures forall i :: 0 <= i <= shared ==>
              |Levels(path, b, leaf, key)[i].0.path| == |path| + i && Levels(path, b, leaf, key)[i].0.blk == b
    decreases shared
  {
    if shared > 0 {
      PartStep(path, leaf, key, shared);
      LevelsDeep(path + [key[|path|]], b, leaf, key, shared - 1);
    } else {
      assert leaf[|path|] != key[|path|];
    }
  }

  lemma {:induction false} SetAllFirst(st: Store, p: (NodeId, Node), ps: seq<(NodeId, Node)>)
    requires forall i :: 0 <= i < |ps| ==> ps[i].0 != p.0
    ensures SetAll(st, [p] + ps) == SetAll(st, ps)[p.0 := p.1]
  {
    if ps == [] {
      assert [p] + ps == [p] && [p][..0] == [];
    } else {
      var init := ps[..|ps| - 1];
      SetAllFirst(st, p, init);
      assert ([p] + ps)[..|ps|] == [p] + init;
    }
  }

  /** A split is the two leaves and these branches. */
  lemma {:induction false} SplitIsLevels(st: Store, path: seq<Byte>, b: BlockId, leaf: Node, key: Hash, shared: nat)
    requires leaf.Leaf? && PartAfter(path, leaf.path, key, shared)
    ensures var at := path + key[|path|..|path| + shared];
            var leaves := st[NodeId(at + [key[|at|]], b) := NewLeaf(key, b)][NodeId(at + [leaf.path[|at|]], b) := leaf];
            SplitAt(st, path, b, leaf, key) == SetAll(leaves, Levels(path, b, leaf.path, key))
    decreases shared
  {
    var at := path + key[|path|..|path| + shared];
    var leaves := st[NodeId(at + [key[|at|]], b) := NewLeaf(key, b)][NodeId(at + [leaf.path[|at|]], b) := leaf];
    if shared > 0 {
      PartStep(path, leaf.path, key, shared);
      hide Insert, NewLeaf, PartAfter;
      var p := path + [key[|path|]];
      SplitIsLevels(st, p, b, leaf, key, shared - 1);
      LevelsDeep(p, b, leaf.path, key, shared - 1);
      SetAllFirst(leaves, (NodeId(path, b), Branch(0, Insert([], key[|path|], b))), Levels(p, b, leaf.path, key));
    } else {
      assert at == path && leaf.path[|path|] != key[|path|];
      var top := (NodeId(path, b), Branch(0, Insert(Insert([], key[|path|], b), leaf.path[|path|], b)));
      assert Levels(path, b, leaf.path, key) == [top] && [top][..0] == [];
      assert SetAll(leaves, []) == leaves;
    }
  }

  /** The first loop of the split: one branch for every shared byte. */
  method MakeBranches(path: seq<Byte>, b: BlockId, leaf: Hash, key: Hash, shared: nat)
    returns (at: seq<Byte>, branches: seq<(NodeId, Node)>)
    requires PartAfter(path, leaf, key, shared)
    ensures at == path + key[|path|..|path| + shared] && branches == Levels(path, b, leaf, key)
  {
    assert |path| + shared < ACCOUNT_SIZE && key[|path|..|path|] == [];
    hide Insert, Sorted, PartAfter, Levels;
    at, branches := path, [];
    for k := 0 to shared
      invariant at == path + key[|path|..|path| + k] && |at| == |path| + k
      invariant PartAfter(at, leaf, key, shared - k)
      invariant branches + Levels(at, b, leaf, key) == Levels(path, b, leaf, key)
    {
      LevelsStep(at, b, leaf, key, shared - k);
      var nib := key[|at|];
      PathStep(path, key, k);
      var cs := InsertChild([], nib, b);
      branches := branches + [(NodeId(at, b), Branch(0, cs))];
      at := at + [nib];
    }
    var last := LastBranch(at, b, leaf, key);
    branches := branches + last;
  }

  lemma LevelsStep(at: seq<Byte>, b: BlockId, leaf: Hash, key: Hash, shared: nat)
    requires PartAfter(at, leaf, key, shared) && shared > 0
    ensures |at| < ACCOUNT_SIZE && PartAfter(at + [key[|at|]], leaf, key, shared - 1) && Sorted([])
    ensures Levels(at, b, leaf, key)
         == [(NodeId(at, b), Branch(0, Insert([], key[|at|], b)))] + Levels(at + [key[|at|]], b, leaf, key)
  {
    PartStep(at, leaf, key, shared);
    hide Insert, PartAfter;
  }

  lemma PathStep(path: seq<Byte>, key: Hash, k: nat)
    requires |path| + k < ACCOUNT_SIZE
    ensures path + key[|path|..|path| + k] + [key[|path| + k]] == path + key[|path|..|path| + k + 1]
  {
    assert key[|path|..|path| + k + 1] == key[|path|..|path| + k] + [key[|path| + k]];
  }

  /** The branch under which both leaves come. */
  method LastBranch(at: seq<Byte>, b: BlockId, leaf: Hash, key: Hash) returns (r: seq<(NodeId, Node)>)
    requires PartAfter(at, leaf, key, 0)
    ensures r == Levels(at, b, leaf, key)
  {
    assert Sorted([]);
    InsertSorted([], key[|at|], b);
    hide Sorted, Insert;
    var one := InsertChild([], key[|at|], b);
    var two := InsertChild(one, leaf[|at|], b);
    return [(NodeId(at, b), Branch(0, two))];
  }

  /** The last loop of the split: the branches are cached. */
  method CacheBranches(a: NodeAllocator, branches: seq<(NodeId, Node)>, ghost hot: set<NodeId>, ghost room: nat)
    returns (ghost hot': set<NodeId>)
    requires a.Calm(hot, room) && |branches| <= room
    requires forall i :: 0 <= i < |branches| ==> branches[i].0.blk != CANONICAL
    modifies a, a.cache
    ensures a.Calm(hot', room - |branches|) && hot <= hot'
    ensures a.Flat() == SetAll(old(a.Flat()), branches)
  {
    hide CalmAt, Contents, KeysOf, Linked, Leaves;
    hot' := hot;
    for i := 0 to |branches|
      invariant a.Calm(hot', room - i) && hot <= hot'
      invariant a.Flat() == SetAll(old(a.Flat()), branches[..i])
    {
      assert branches[..i + 1][..i] == branches[..i];
      var _ := a.CacheNode(branches[i].0, branches[i].1, hot', room - i);
      hot' := hot' + {branches[i].0};
    }
    assert branches[..|branches|] == branches;
  }

  lemma MovedLeaf(st: Store, id: NodeId, leaf: Node, added: NodeId, n: Node)
    requires id in st && st[id] == leaf && leaf.Leaf? && |added.path| > |id.path|
    ensures id in st[added := n] && st[added := n][id] == leaf
    ensures st[added := n][id := Recoded(leaf)] == st[added := n]
  {
  }

  /** The middle of the split: the new leaf is cached, the old one goes under its longer path. */
  method MoveLeaves(a: NodeAllocator, id: NodeId, leaf: Node, key: Hash, b: BlockId, at: seq<Byte>,
                    ghost hot: set<NodeId>, ghost room: nat)
    returns (rc: Code, ghost hot': set<NodeId>)
    requires a.Calm(hot, room) && room > 0 && id in hot && id in a.Flat() && a.Flat()[id] == leaf && leaf.Leaf?
    requires |id.path| <= |at| < ACCOUNT_SIZE
    requires InBlock(id, b)
    modifies a, a.cache
    ensures rc == Ok && a.Calm(hot', room - 1)
    ensures a.Flat()
         == old(a.Flat())[NodeId(at + [key[|at|]], b) := NewLeaf(key, b)][NodeId(at + [leaf.path[|at|]], b) := leaf]
    ensures forall x :: x in hot && |x.path| < |id.path| ==> x in hot'
  {
    var added, moved := NodeId(at + [key[|at|]], b), NodeId(at + [leaf.path[|at|]], b);
    MovedLeaf(a.Flat(), id, leaf, added, NewLeaf(key, b));
    hide *;
    var _ := a.CacheNode(added, NewLeaf(key, b), hot, room);
    rc := a.Recache(id, moved, hot + {added}, room - 1);
    hot' := hot + {added} - {id} + {moved};
  }

  /** Leaf::create_account on a leaf whose account differs. */
  method Split(a: NodeAllocator, id: NodeId, leaf: Node, key: Hash, b: BlockId, shared: nat, ghost hot: set<NodeId>,
               ghost room: nat)
    returns (rc: Code, ghost hot': set<NodeId>, ghost left: nat)
    requires a.Calm(hot, room) && id in hot && id in a.Flat() && a.Flat()[id] == leaf && leaf.Leaf?
    requires PartAfter(id.path, leaf.path, key, shared) && room > shared + 1
    requires InBlock(id, b)
    modifies a, a.cache
    ensures rc == Ok && a.Flat() == SplitAt(old(a.Flat()), id.path, b, leaf, key)
    ensures a.Calm(hot', left) && left + shared + 2 >= room
    ensures forall x :: x in hot && |x.path| < |id.path| ==> x in hot'
  {
    var at, branches := MakeBranches(id.path, b, leaf.path, key, shared);
    LevelsDeep(id.path, b, leaf.path, key, shared);
    SplitIsLevels(a.Flat(), id.path, b, leaf, key, shared);
    hide *;
    ghost var moved;
    rc, moved := MoveLeaves(a, id, leaf, key, b, at, hot, room);
    hot' := CacheBranches(a, branches, moved, room - 1);
    left := room - 1 - |branches|;
  }

  // ---------- create_account ----------

  /** What create_account does on a leaf and on a branch. */
  lemma CreateOnLeaf(st: Store, id: NodeId, key: Hash, b: BlockId)
    requires Good(st) && id in st && st[id].Leaf?
    ensures |id.path| < ACCOUNT_SIZE
    ensures CreateAt(st, id, key, b)
         == if SamePath(st[id].path, key, |id.path|) then (AlreadyExists, st)
             else (Ok, SplitAt(st, id.path, b, st[id], key))
  {
    assert NodeOk(st, id, st[id]);
    hide Good, SplitAt;
  }

  lemma CreateOnBranch(st: Store, id: NodeId, key: Hash, b: BlockId)
    requires Good(st) && id in st && st[id].Branch? && id.path <= key && Separate(st, key)
    ensures |id.path| < PATH_SIZE && Sorted(st[id].children) && id.path + [key[|id.path|]] <= key
    ensures var nib := key[|id.path|];
            var next := Next(st[id].children, nib);
            var c := Below(id, nib, if next.None? then b else next.value);
            var r := if next.None? then (Ok, st[c := NewLeaf(key, b)]) else CreateAt(st, c, key, b);
            && (next.Some? && c !in st ==> CreateAt(st, id, key, b) == (LoadNodeErr, st))
            && CreateAt(st, id, key, b)
               == (r.0,
                   if r.0 == Ok then r.1[NodeId(id.path, b) := Branch(st[id].commit, Insert(st[id].children, nib, b))]
                   else r.1)
            && (r.0 == Ok ==> id in r.1 && r.1[id] == st[id])
  {
    assert NodeOk(st, id, st[id]);
    var nib := key[|id.path|];
    NextOk(st, id, st[id].children, nib);
    PrefixStep(id.path, key);
    var next := Next(st[id].children, nib);
    hide Next, Good, Sorted, Separate, Insert, NewLeaf;
    if next.Some? {
      var c := Below(id, nib, next.value);
      if CreateAt(st, c, key, b).0 == Ok {
        CreateConfined(st, c, key, b);
      }
    }
  }

  /** Leaf::create_account and Branch::create_account. */
  method CreateAccount(a: NodeAllocator, id: NodeId, key: Hash, b: BlockId, ghost hot: set<NodeId>, ghost room: nat)
    returns (rc: Code, ghost hot': set<NodeId>, ghost left: nat)
    requires a.Calm(hot, room) && id in hot && Good(a.Flat()) && Small(a.Flat()) && Separate(a.Flat(), key)
    requires id.path <= key && room + |id.path| > ACCOUNT_SIZE
    requires InBlock(id, b)
    modifies a, a.cache
    ensures (rc, a.Flat()) == CreateAt(old(a.Flat()), id, key, b)
    ensures a.Calm(hot', left) && left + ACCOUNT_SIZE + 1 >= room + |id.path|
    ensures forall x :: x in hot && |x.path| < |id.path| ==> x in hot'
    decreases ACCOUNT_SIZE - |id.path|, 2
  {
    var n := Held(a, id, hot, room);
    if n.Branch? {
      hide *;
      rc, hot', left := CreateInBranch(a, id, n, key, b, hot, room);
      return;
    }
    assert |id.path| < ACCOUNT_SIZE by {
      CreateOnLeaf(a.Flat(), id, key, b);
    }
    hide *;
    rc, hot', left := CreateInLeaf(a, id, n, key, b, hot, room);
  }

  method CreateInLeaf(a: NodeAllocator, id: NodeId, n: Node, key: Hash, b: BlockId, ghost hot: set<NodeId>,
                      ghost room: nat)
    returns (rc: Code, ghost hot': set<NodeId>, ghost left: nat)
    requires a.Calm(hot, room) && id in hot && Good(a.Flat())
    requires |id.path| < ACCOUNT_SIZE && room + |id.path| > ACCOUNT_SIZE
    requires InBlock(id, b)
    requires id in a.Flat() && a.Flat()[id] == n && n.Leaf?
    modifies a, a.cache
    ensures (rc, a.Flat()) == CreateAt(old(a.Flat()), id, key, b)
    ensures a.Calm(hot', left) && left + ACCOUNT_SIZE + 1 >= room + |id.path|
    ensures forall x :: x in hot && |x.path| < |id.path| ==> x in hot'
  {
    CreateOnLeaf(a.Flat(), id, key, b);
    var matching := MatchingPath(n.path, key, |id.path|);
    assert matching.Some? ==> PartAfter(id.path, n.path, key, matching.value);
    hide *;
    if matching.None? {
      return AlreadyExists, hot, room;
    }
    rc, hot', left := Split(a, id, n, key, b, matching.value, hot, room);
  }

  method CreateInBranch(a: NodeAllocator, id: NodeId, n: Node, key: Hash, b: BlockId, ghost hot: set<NodeId>,
                        ghost room: nat)
    returns (rc: Code, ghost hot': set<NodeId>, ghost left: nat)
    requires a.Calm(hot, room) && id in hot && Good(a.Flat()) && Small(a.Flat()) && Separate(a.Flat(), key)
    requires id.path <= key && room + |id.path| > ACCOUNT_SIZE
    requires InBlock(id, b)
    requires id in a.Flat() && a.Flat()[id] == n && n.Branch?
    modifies a, a.cache
    ensures (rc, a.Flat()) == CreateAt(old(a.Flat()), id, key, b)
    ensures a.Calm(hot', left) && left + ACCOUNT_SIZE + 1 >= room + |id.path|
    ensures forall x :: x in hot && |x.path| < |id.path| ==> x in hot'
    decreases ACCOUNT_SIZE - |id.path|, 0
  {
    assert id.blk != b ==> |n.children| < 256;
    CreateOnBranch(a.Flat(), id, key, b);
    hide CalmAt, Contents, KeysOf, Linked, Rooted, Clear, Good, Small, CreateAt, Next, Insert, Sorted, Separate, NewLeaf,
        Leaves;
    var nib := key[|id.path|];
    var next := GetNextId(id, n.children, nib);
    rc, hot', left := CreateBelow(a, next, Below(id, nib, b), key, b, hot, room);
    if rc == Ok {
      var cs := InsertChild(n.children, nib, b);
      rc, hot' := Adopt(a, id, n, Branch(n.commit, cs), b, hot', left);
    }
  }

  /** The child of a branch: loaded and asked, or a new leaf. */
  method CreateBelow(a: NodeAllocator, next: Option<NodeId>, child: NodeId, key: Hash, b: BlockId,
                     ghost hot: set<NodeId>, ghost room: nat)
    returns (rc: Code, ghost hot': set<NodeId>, ghost left: nat)
    requires a.Calm(hot, room) && Good(a.Flat()) && Small(a.Flat()) && Separate(a.Flat(), key)
    requires child.path <= key && (next.Some? ==> next.value.path == child.path)
    requires room + |child.path| > ACCOUNT_SIZE + 1 && room > 0
    requires b != CANONICAL && child.path != []
    modifies a, a.cache
    ensures next.Some? && next.value !in old(a.Flat()) ==> (rc, a.Flat()) == (LoadNodeErr, old(a.Flat()))
    ensures next.Some? && next.value in old(a.Flat()) ==> (rc, a.Flat()) == CreateAt(old(a.Flat()), next.value, key, b)
    ensures next.None? ==> (rc, a.Flat()) == (Ok, old(a.Flat())[child := NewLeaf(key, b)])
    ensures a.Calm(hot', left) && left + ACCOUNT_SIZE + 2 >= room + |child.path|
    ensures forall x :: x in hot && |x.path| < |child.path| ==> x in hot'
    decreases ACCOUNT_SIZE - |child.path|, 3
  {
    hide CalmAt, Contents, KeysOf, Linked, Good, Small, CreateAt, Separate, NewLeaf, Leaves;
    if next.Some? {
      var loaded, _ := a.LoadNode(next.value, hot, room);
      if loaded.None? {
        return LoadNodeErr, hot, room;
      }
      rc, hot', left := CreateAccount(a, next.value, key, b, hot + {next.value}, room - 1);
    } else {
      var _ := a.CacheNode(child, NewLeaf(key, b), hot, room);
      rc, hot', left := Ok, hot + {child}, room - 1;
    }
  }
}

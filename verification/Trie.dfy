/** One block's view of the store: descent from a root to a leaf, and what every stored node keeps. */
module Trie {
  import opened Options
  import opened Scalars
  import opened TrieTypes
  import opened Children

  /** The slots of the account the key names, as read from the node `id`. A leaf compares only the
      key bytes from its own level on (leaf.cpp:160-174). */
  function Lookup(st: Store, id: NodeId, key: Hash): (r: Option<seq<Hash>>)
    decreases ACCOUNT_SIZE - |id.path|
  {
    if id !in st || |id.path| >= ACCOUNT_SIZE then None
    else
      match st[id]
      case Leaf(_, path, slots, _) =>
        if SamePath(path, key, |id.path|) then Some(slots) else None
      case Branch(_, children) =>
        match Next(children, key[|id.path|])
        case None => None
        case Some(b) => Lookup(st, Below(id, key[|id.path|], b), key)
  }

  /** One step of the descent. */
  lemma LookupStep(st: Store, id: NodeId, key: Hash)
    requires id in st && |id.path| < ACCOUNT_SIZE && st[id].Branch?
    ensures var next := Next(st[id].children, key[|id.path|]);
            Lookup(st, id, key) == if next.None? then None else Lookup(st, Below(id, key[|id.path|], next.value), key)
  {
    hide Next;
  }

  /** matching_path returns nothing: the account bytes from the level on agree. */
  predicate SamePath(path: Hash, key: Hash, level: nat)
    requires level <= ACCOUNT_SIZE
  {
    path[level..ACCOUNT_SIZE] == key[level..ACCOUNT_SIZE]
  }

  /** get_next_id: the block of the child for the byte, unless its scalar is zero. */
  function Next(cs: seq<Child>, nib: Byte): (r: Option<BlockId>) {
    match Entry(cs, nib)
    case None => None
    case Some(c) => if c.sk == 0 then None else Some(c.blk)
  }

  // ---------- what every stored node keeps ----------

  predicate BranchOk(st: Store, id: NodeId, cs: seq<Child>) {
    && |id.path| < PATH_SIZE
    && Sorted(cs)
    && (id.path != [] ==> cs != [])
    && forall i :: 0 <= i < |cs| ==> cs[i].sk != 0 && Below(id, cs[i].anchor, cs[i].blk) in st
  }

  predicate LeafOk(id: NodeId, n: Node)
    requires n.Leaf?
  {
    && 0 < |id.path| <= PATH_SIZE
    && id.path <= n.path
    && n.path[ACCOUNT_SIZE] == 0
    && |n.slots| == |n.slotBlks| == LEAF_ORDER
    && n.slots[0] == n.path
  }

  predicate NodeOk(st: Store, id: NodeId, n: Node) {
    match n
    case Branch(_, cs) => BranchOk(st, id, cs)
    case Leaf(_, _, _, _) => LeafOk(id, n)
  }

  ghost predicate Good(st: Store) {
    forall id :: id in st ==> NodeOk(st, id, st[id])
  }

  /** The same, for the nodes at and below a path only. */
  ghost predicate GoodBelow(st: Store, path: seq<Byte>) {
    forall id :: id in st && path <= id.path ==> NodeOk(st, id, st[id])
  }

  // ---------- agreement below a path ----------

  ghost predicate SameAt(st: Store, st': Store, id: NodeId) {
    (id in st <==> id in st') && (id in st ==> st[id] == st'[id])
  }

  /** The two stores hold the same nodes at and below the path. */
  ghost predicate AgreeBelow(st: Store, st': Store, path: seq<Byte>) {
    forall id: NodeId :: path <= id.path ==> SameAt(st, st', id)
  }

  lemma AgreeDeeper(st: Store, st': Store, path: seq<Byte>, deeper: seq<Byte>)
    requires AgreeBelow(st, st', path) && path <= deeper
    ensures AgreeBelow(st, st', deeper)
  {
    forall id: NodeId | deeper <= id.path ensures SameAt(st, st', id) {
      PrefixTrans(path, deeper, id.path);
    }
  }

  lemma PrefixTrans(p: seq<Byte>, q: seq<Byte>, r: seq<Byte>)
    requires p <= q && q <= r
    ensures p <= r
  {
  }

  lemma PrefixByte(p: seq<Byte>, nib: Byte, q: seq<Byte>)
    ensures p + [nib] <= q ==> |q| > |p| && q[|p|] == nib
  {
    if p + [nib] <= q {
      assert (p + [nib])[|p|] == nib;
    }
  }

  /** A reading depends only on the nodes below where it starts. */
  lemma {:induction false} LookupAgree(st: Store, st': Store, id: NodeId, key: Hash)
    requires AgreeBelow(st, st', id.path)
    ensures Lookup(st, id, key) == Lookup(st', id, key)
    decreases ACCOUNT_SIZE - |id.path|
  {
    assert SameAt(st, st', id);
    if id in st && |id.path| < ACCOUNT_SIZE && st[id].Branch? {
      var nib := key[|id.path|];
      var next := Next(st[id].children, nib);
      hide Next, AgreeBelow;
      if next.Some? {
        var c := Below(id, nib, next.value);
        AgreeDeeper(st, st', id.path, c.path);
        LookupAgree(st, st', c, key);
      }
    }
  }

  /** Whether a node is good depends only on what is below it. */
  lemma GoodAgree(st: Store, st': Store, path: seq<Byte>)
    requires GoodBelow(st, path) && AgreeBelow(st, st', path)
    ensures GoodBelow(st', path)
  {
    forall id | id in st' && path <= id.path ensures NodeOk(st', id, st'[id]) {
      assert SameAt(st, st', id);
      assert NodeOk(st, id, st[id]);
      if st[id].Branch? {
        BranchAgree(st, st', path, id, st[id].children);
      }
    }
  }

  lemma BranchAgree(st: Store, st': Store, path: seq<Byte>, id: NodeId, cs: seq<Child>)
    requires AgreeBelow(st, st', path) && path <= id.path && BranchOk(st, id, cs)
    ensures BranchOk(st', id, cs)
  {
    hide Sorted;
    forall i | 0 <= i < |cs| ensures Below(id, cs[i].anchor, cs[i].blk) in st' {
      var c := Below(id, cs[i].anchor, cs[i].blk);
      PrefixTrans(path, id.path, c.path);
      assert SameAt(st, st', c);
    }
  }

  lemma GoodDeeper(st: Store, path: seq<Byte>, deeper: seq<Byte>)
    requires GoodBelow(st, path) && path <= deeper
    ensures GoodBelow(st, deeper)
  {
    forall id | id in st && deeper <= id.path ensures NodeOk(st, id, st[id]) {
      PrefixTrans(path, deeper, id.path);
    }
  }

  /** Everything outside block b below the path is untouched, and nothing is lost. */
  ghost predicate Confined(st: Store, st': Store, path: seq<Byte>, b: BlockId) {
    && (forall id :: id in st ==> id in st')
    && (forall id :: id in st' && !(id.blk == b && path <= id.path) ==> id in st && st'[id] == st[id])
  }

  lemma ConfinedWider(st: Store, st': Store, path: seq<Byte>, deeper: seq<Byte>, b: BlockId)
    requires Confined(st, st', deeper, b) && path <= deeper
    ensures Confined(st, st', path, b)
  {
    forall id | id in st' && !(id.blk == b && path <= id.path) ensures id in st && st'[id] == st[id] {
      if deeper <= id.path {
        PrefixTrans(path, deeper, id.path);
      }
    }
  }

  /** Then setting the node of block b at the path itself stays confined. */
  lemma ConfinedSet(st: Store, st': Store, path: seq<Byte>, b: BlockId, n: Node)
    requires Confined(st, st', path, b)
    ensures Confined(st, st'[NodeId(path, b) := n], path, b)
  {
  }

  /** Changes confined below one byte leave what is below another byte alone. */
  lemma ConfinedSibling(st: Store, st': Store, path: seq<Byte>, nib: Byte, other: Byte, b: BlockId, n: Node)
    requires Confined(st, st', path + [nib], b) && nib != other
    ensures AgreeBelow(st, st'[NodeId(path, b) := n], path + [other])
  {
    var st'' := st'[NodeId(path, b) := n];
    forall id: NodeId | path + [other] <= id.path ensures SameAt(st, st'', id) {
      PrefixByte(path, other, id.path);
      PrefixByte(path, nib, id.path);
    }
  }

  /** Setting a node changes nothing strictly below it. */
  lemma SetAgree(st: Store, path: seq<Byte>, b: BlockId, n: Node, nib: Byte)
    ensures AgreeBelow(st, st[NodeId(path, b) := n], path + [nib])
  {
    forall id: NodeId | path + [nib] <= id.path ensures SameAt(st, st[NodeId(path, b) := n], id) {
      assert |id.path| > |path|;
    }
  }

  /** More nodes never spoil a good one. */
  lemma NodeOkMore(st: Store, st': Store, id: NodeId, n: Node)
    requires NodeOk(st, id, n) && forall i :: i in st ==> i in st'
    ensures NodeOk(st', id, n)
  {
  }

  lemma GoodSet(st: Store, st': Store, id: NodeId, n: Node)
    requires Good(st') && NodeOk(st'[id := n], id, n)
    ensures Good(st'[id := n])
  {
    hide NodeOk;
    var st'' := st'[id := n];
    forall i | i in st'' ensures NodeOk(st'', i, st''[i]) {
      if i != id {
        NodeOkMore(st', st'', i, st'[i]);
      }
    }
  }

  /** A branch with one entry moved to block b is good once that child exists. */
  lemma BranchInsertOk(st: Store, id: NodeId, cs: seq<Child>, nib: Byte, b: BlockId, commit: Scalar, st': Store)
    requires BranchOk(st, id, cs) && forall i :: i in st ==> i in st'
    requires Below(id, nib, b) in st'
    ensures NodeOk(st', NodeId(id.path, b), Branch(commit, Insert(cs, nib, b)))
  {
    InsertSorted(cs, nib, b);
    var r := Insert(cs, nib, b);
    hide Insert, Sorted;
    forall i | 0 <= i < |r| ensures r[i].sk != 0 && Below(id, r[i].anchor, r[i].blk) in st' {
      InsertMember(cs, nib, b, r[i]);
      if r[i] in cs {
        var j :| 0 <= j < |cs| && cs[j] == r[i];
      }
    }
  }

  /** Entries of a good branch are followed. */
  lemma NextOk(st: Store, id: NodeId, cs: seq<Child>, nib: Byte)
    requires BranchOk(st, id, cs)
    ensures Next(cs, nib).Some? ==> Below(id, nib, Next(cs, nib).value) in st
    ensures Next(cs, nib).None? <==> Entry(cs, nib).None?
  {
    EntryIsMember(cs, nib);
    hide Entry;
    if Entry(cs, nib).Some? {
      var j :| 0 <= j < |cs| && cs[j] == Entry(cs, nib).value;
    }
  }

  lemma NextInsert(cs: seq<Child>, nib: Byte, b: BlockId, n: Byte)
    requires Sorted(cs)
    ensures Next(Insert(cs, nib, b), n) == if n == nib then Some(b) else Next(cs, n)
  {
    InsertEntry(cs, nib, b, n);
    hide Insert, Entry, Sorted;
  }

  /** The entry a byte leads to. */
  lemma NextMember(cs: seq<Child>, nib: Byte) returns (n: nat)
    requires Sorted(cs) && Next(cs, nib).Some?
    ensures n < |cs| && cs[n].anchor == nib && Next(cs, nib) == Some(cs[n].blk)
  {
    EntryIsMember(cs, nib);
    n :| 0 <= n < |cs| && cs[n] == Entry(cs, nib).value;
  }
}

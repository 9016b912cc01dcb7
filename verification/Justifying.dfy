/** Justifying a block: its nodes become the canonical ones (branch.cpp:458-510, leaf.cpp:356-448). */
module Justifying {
  import opened Options
  import opened TrieTypes
  import opened Children
  import opened Trie
  import opened TrieOps
  import opened Ownership
  import opened Pruning

  function Cleared(cs: seq<Child>): (r: seq<Child>)
    ensures |r| == |cs|
  {
    seq(|cs|, i requires 0 <= i < |cs| => cs[i].(blk := CANONICAL))
  }

  function ClearedBlks(s: seq<BlockId>): (r: seq<BlockId>)
    ensures |r| == |s|
  {
    seq(|s|, i => CANONICAL)
  }

  /** The end of both justify functions: the changed node under block 0. A node of the block being
      justified loses its old record; a node of an older block keeps one. */
  function Settle(st: Store, id: NodeId, n: Node, b: BlockId): (r: Store) {
    if id.blk == b then (st - {id})[NodeId(id.path, CANONICAL) := n]
    else st[id := n][NodeId(id.path, CANONICAL) := n]
  }

  function JustifyAt(st: Store, id: NodeId, b: BlockId): (r: (Code, Store))
    decreases ACCOUNT_SIZE - |id.path|, 1, 0
  {
    if id !in st || |id.path| >= ACCOUNT_SIZE then (LoadNodeErr, st)
    else
      match st[id]
      case Leaf(_, _, _, blks) => (Ok, Settle(st, id, st[id].(slotBlks := ClearedBlks(blks)), b))
      case Branch(commit, cs) =>
        var (rc, st1) := JustifyChildren(st, id, cs, b, 0);
        if rc != Ok then (rc, st1)
        else if cs == [] then (Deleted, if id.blk == b then st1 - {id} else st1)
        else (Ok, Settle(st1, id, Branch(commit, Cleared(cs)), b))
  }

  /** The loop over the entries that are not canonical yet, from the i-th on. */
  function JustifyChildren(st: Store, id: NodeId, cs: seq<Child>, b: BlockId, i: nat): (r: (Code, Store))
    requires |id.path| < ACCOUNT_SIZE && i <= |cs|
    decreases ACCOUNT_SIZE - |id.path|, 0, |cs| - i
  {
    if i == |cs| then (Ok, st)
    else if cs[i].blk == CANONICAL then JustifyChildren(st, id, cs, b, i + 1)
    else
      var (rc, st1) := JustifyAt(st, Below(id, cs[i].anchor, cs[i].blk), b);
      if rc != Ok && rc != Deleted then (rc, st1) else JustifyChildren(st1, id, cs, b, i + 1)
  }

  // ---------- the situation justify needs ----------

  predicate OnlyCanonical(n: Node) {
    n.Branch? ==> forall i :: 0 <= i < |n.children| ==> n.children[i].blk == CANONICAL
  }

  predicate OnlyTwo(n: Node, b: BlockId) {
    n.Branch? ==> forall i :: 0 <= i < |n.children| ==> n.children[i].blk == CANONICAL || n.children[i].blk == b
  }

  /** At and below the path only the canonical block and b have nodes; canonical ones point only to
      canonical ones. */
  ghost predicate Pending(st: Store, path: seq<Byte>, b: BlockId) {
    forall id :: id in st && path <= id.path ==>
      && (id.blk == CANONICAL || id.blk == b)
      && OnlyTwo(st[id], b)
      && (id.blk == CANONICAL ==> OnlyCanonical(st[id]))
  }

  /** What justify achieves at and below the path. */
  ghost predicate Justified(st: Store, st': Store, path: seq<Byte>, b: BlockId) {
    && NodeId(path, CANONICAL) in st'
    && GoodBelow(st', path)
    && (forall id :: id in st' && path <= id.path ==> id.blk == CANONICAL && OnlyCanonical(st'[id]))
    && (forall id :: id in st && path <= id.path && id.blk == CANONICAL ==> id in st')
    && (forall k: Hash :: path <= k ==> Lookup(st', NodeId(path, CANONICAL), k) == Lookup(st, NodeId(path, b), k))
  }

  lemma PendingAgree(st: Store, st': Store, path: seq<Byte>, b: BlockId)
    requires Pending(st, path, b) && AgreeBelow(st, st', path)
    ensures Pending(st', path, b)
  {
    forall id | id in st' && path <= id.path
      ensures (id.blk == CANONICAL || id.blk == b) && OnlyTwo(st'[id], b) &&
              (id.blk == CANONICAL ==> OnlyCanonical(st'[id]))
    {
      assert SameAt(st, st', id);
    }
  }

  lemma PendingDeeper(st: Store, path: seq<Byte>, deeper: seq<Byte>, b: BlockId)
    requires Pending(st, path, b) && path <= deeper
    ensures Pending(st, deeper, b)
  {
    forall id | id in st && deeper <= id.path
      ensures (id.blk == CANONICAL || id.blk == b) && OnlyTwo(st[id], b) &&
              (id.blk == CANONICAL ==> OnlyCanonical(st[id]))
    {
      PrefixTrans(path, deeper, id.path);
    }
  }

  /** Only the store below the path matters on both sides. */
  lemma JustifiedAgree(st: Store, st0: Store, st1: Store, st': Store, path: seq<Byte>, b: BlockId)
    requires Justified(st0, st1, path, b) && AgreeBelow(st, st0, path) && AgreeBelow(st1, st', path)
    ensures Justified(st, st', path, b)
  {
    assert SameAt(st1, st', NodeId(path, CANONICAL));
    GoodAgree(st1, st', path);
    forall id | id in st' && path <= id.path ensures id.blk == CANONICAL && OnlyCanonical(st'[id]) {
      assert SameAt(st1, st', id);
    }
    forall id | id in st && path <= id.path && id.blk == CANONICAL ensures id in st' {
      assert SameAt(st, st0, id);
      assert SameAt(st1, st', id);
    }
    forall k: Hash | path <= k ensures Lookup(st', NodeId(path, CANONICAL), k) == Lookup(st, NodeId(path, b), k) {
      LookupAgree(st1, st', NodeId(path, CANONICAL), k);
      LookupAgree(st, st0, NodeId(path, b), k);
    }
  }

  // ---------- a leaf ----------

  lemma JustifyLeaf(st: Store, id: NodeId, b: BlockId)
    requires GoodBelow(st, id.path) && id in st && id.blk == b && b != CANONICAL && st[id].Leaf?
    requires OwnedBelow(st, id.path, b) && Pending(st, id.path, b)
    ensures JustifyAt(st, id, b).0 == Ok
    ensures Justified(st, JustifyAt(st, id, b).1, id.path, b)
    ensures forall i: NodeId :: !(id.path <= i.path) ==> SameAt(st, JustifyAt(st, id, b).1, i)
  {
    assert NodeOk(st, id, st[id]);
    var n, self := st[id].(slotBlks := ClearedBlks(st[id].slotBlks)), NodeId(id.path, CANONICAL);
    var st' := JustifyAt(st, id, b).1;
    assert st' == (st - {id})[self := n];
    forall i | i in st' && id.path <= i.path
      ensures i.blk == CANONICAL && OnlyCanonical(st'[i]) && NodeOk(st', i, st'[i])
    {
      if i != self {
        LeafRest(st, st', id, b, i);
      }
    }
    forall k: Hash | id.path <= k ensures Lookup(st', self, k) == Lookup(st, id, k) {
    }
  }

  /** Under a leaf of b there can only be canonical nodes, and they keep their children. */
  lemma LeafRest(st: Store, st': Store, id: NodeId, b: BlockId, i: NodeId)
    requires GoodBelow(st, id.path) && id in st && id.blk == b && b != CANONICAL && st[id].Leaf?
    requires OwnedBelow(st, id.path, b) && Pending(st, id.path, b)
    requires i in st && i != id && id.path <= i.path && st'.Keys == st.Keys - {id} + {NodeId(id.path, CANONICAL)}
    ensures i.blk == CANONICAL && OnlyCanonical(st[i]) && NodeOk(st', i, st[i])
  {
    assert NodeOk(st, i, st[i]);
    if i.blk == b {
      assert i == NodeId(i.path, b);
      assert id.path < i.path;
      NothingBelow(st, id, b, i.path);
    }
  }

  // ---------- a branch ----------

  /** j lies under one of the first i entries that belong to b. */
  ghost predicate UnderDone(id: NodeId, cs: seq<Child>, b: BlockId, i: nat, path: seq<Byte>)
    requires i <= |cs|
  {
    exists n :: 0 <= n < i && cs[n].blk == b && id.path + [cs[n].anchor] <= path
  }

  /** Half-way through the loop. */
  ghost predicate JustifiedBefore(st: Store, st1: Store, id: NodeId, cs: seq<Child>, b: BlockId, i: nat)
    requires i <= |cs|
  {
    && (forall j: NodeId :: !UnderDone(id, cs, b, i, j.path) ==> SameAt(st, st1, j))
    && (forall n :: 0 <= n < i && cs[n].blk == b ==> Justified(st, st1, id.path + [cs[n].anchor], b))
  }

  /** Under another byte nothing has been touched yet. */
  lemma UntouchedBelow(st: Store, st1: Store, id: NodeId, cs: seq<Child>, b: BlockId, i: nat, x: Byte)
    requires i <= |cs| && JustifiedBefore(st, st1, id, cs, b, i)
    requires forall n :: 0 <= n < i && cs[n].blk == b ==> cs[n].anchor != x
    ensures AgreeBelow(st, st1, id.path + [x])
  {
    forall j: NodeId | id.path + [x] <= j.path ensures SameAt(st, st1, j) {
      PrefixByte(id.path, x, j.path);
      forall n | 0 <= n < i && cs[n].blk == b ensures !(id.path + [cs[n].anchor] <= j.path) {
        PrefixByte(id.path, cs[n].anchor, j.path);
      }
    }
  }

  lemma JustifyStep(st: Store, st1: Store, st2: Store, id: NodeId, cs: seq<Child>, b: BlockId, i: nat)
    requires i < |cs| && Sorted(cs) && cs[i].blk == b && JustifiedBefore(st, st1, id, cs, b, i)
    requires Justified(st1, st2, id.path + [cs[i].anchor], b)
    requires forall j: NodeId :: !(id.path + [cs[i].anchor] <= j.path) ==> SameAt(st1, st2, j)
    ensures JustifiedBefore(st, st2, id, cs, b, i + 1)
  {
    var p := id.path + [cs[i].anchor];
    UntouchedBelow(st, st1, id, cs, b, i, cs[i].anchor);
    forall j: NodeId | !UnderDone(id, cs, b, i + 1, j.path) ensures SameAt(st, st2, j) {
      NotUnderDone(id, cs, b, i, j.path);
      assert SameAt(st, st1, j);
      assert SameAt(st1, st2, j);
    }
    forall n | 0 <= n < i + 1 && cs[n].blk == b ensures Justified(st, st2, id.path + [cs[n].anchor], b) {
      if n == i {
        AgreeSelf(st2, p);
        JustifiedAgree(st, st1, st2, st2, p, b);
      } else {
        assert cs[n].anchor < cs[i].anchor;
        hide Sorted, Justified;
        SiblingAgree(st1, st2, id.path, cs[i].anchor, cs[n].anchor);
        AgreeSelf(st, id.path + [cs[n].anchor]);
        JustifiedAgree(st, st, st1, st2, id.path + [cs[n].anchor], b);
      }
    }
  }

  lemma NotUnderDone(id: NodeId, cs: seq<Child>, b: BlockId, i: nat, path: seq<Byte>)
    requires i < |cs| && !UnderDone(id, cs, b, i + 1, path)
    ensures !UnderDone(id, cs, b, i, path)
    ensures cs[i].blk == b ==> !(id.path + [cs[i].anchor] <= path)
  {
  }

  lemma AgreeSelf(st: Store, p: seq<Byte>)
    ensures AgreeBelow(st, st, p)
  {
  }

  lemma SiblingAgree(st1: Store, st2: Store, path: seq<Byte>, x: Byte, y: Byte)
    requires x != y && forall j: NodeId :: !(path + [x] <= j.path) ==> SameAt(st1, st2, j)
    ensures AgreeBelow(st1, st2, path + [y])
  {
    forall j: NodeId | path + [y] <= j.path ensures SameAt(st1, st2, j) {
      PrefixByte(path, x, j.path);
      PrefixByte(path, y, j.path);
    }
  }

  lemma JustifySkip(st: Store, st1: Store, id: NodeId, cs: seq<Child>, b: BlockId, i: nat)
    requires i < |cs| && cs[i].blk != b && JustifiedBefore(st, st1, id, cs, b, i)
    ensures JustifiedBefore(st, st1, id, cs, b, i + 1)
  {
    hide Justified, SameAt;
    forall j: NodeId | !UnderDone(id, cs, b, i + 1, j.path) ensures SameAt(st, st1, j) {
      NotUnderDone(id, cs, b, i, j.path);
    }
  }

  /** The next child is untouched so far, so it can be justified. */
  lemma JustifyChildReady(st: Store, st1: Store, id: NodeId, b: BlockId, i: nat)
    requires GoodBelow(st, id.path) && id in st && id.blk == b && st[id].Branch?
    requires OwnedBelow(st, id.path, b) && Pending(st, id.path, b)
    requires i < |st[id].children| && st[id].children[i].blk == b
    requires JustifiedBefore(st, st1, id, st[id].children, b, i)
    ensures var child := Below(id, st[id].children[i].anchor, b);
            && child in st1 && GoodBelow(st1, child.path) && OwnedBelow(st1, child.path, b) &&
                Pending(st1, child.path, b)
            && child.path == id.path + [st[id].children[i].anchor] && |child.path| <= PATH_SIZE
  {
    assert NodeOk(st, id, st[id]);
    var cs := st[id].children;
    var child := Below(id, cs[i].anchor, b);
    UntouchedBelow(st, st1, id, cs, b, i, cs[i].anchor);
    hide Sorted, JustifiedBefore;
    assert SameAt(st, st1, child);
    hide AgreeBelow, GoodBelow, OwnedBelow, Pending, NodeOk;
    GoodDeeper(st, id.path, child.path);
    GoodAgree(st, st1, child.path);
    OwnedDeeper(st, id.path, child.path, b);
    OwnedAgree(st, st1, child.path, b);
    PendingDeeper(st, id.path, child.path, b);
    PendingAgree(st, st1, child.path, b);
  }

  lemma {:induction false} JustifyLoop(st: Store, st1: Store, id: NodeId, cs: seq<Child>, b: BlockId, i: nat)
    requires GoodBelow(st, id.path) && id in st && id.blk == b && b != CANONICAL && st[id].Branch? &&
             cs == st[id].children
    requires OwnedBelow(st, id.path, b) && Pending(st, id.path, b) && i <= |cs| && |id.path| < ACCOUNT_SIZE
    requires JustifiedBefore(st, st1, id, cs, b, i)
    ensures var r := JustifyChildren(st1, id, cs, b, i);
            r.0 == Ok && JustifiedBefore(st, r.1, id, cs, b, |cs|)
    decreases ACCOUNT_SIZE - |id.path|, 0, |cs| - i
  {
    if i < |cs| {
      assert NodeOk(st, id, st[id]);
      assert cs[i].blk == CANONICAL || cs[i].blk == b by { assert OnlyTwo(st[id], b); }
      hide GoodBelow, OwnedBelow, JustifiedBefore, Sorted, Justified, Pending, NodeOk;
      if cs[i].blk == CANONICAL {
        JustifySkip(st, st1, id, cs, b, i);
        JustifyLoop(st, st1, id, cs, b, i + 1);
      } else {
        var child := Below(id, cs[i].anchor, b);
        JustifyChildReady(st, st1, id, b, i);
        JustifyCorrect(st1, child, b);
        JustifyStep(st, st1, JustifyAt(st1, child, b).1, id, cs, b, i);
        JustifyLoop(st, JustifyAt(st1, child, b).1, id, cs, b, i + 1);
      }
    }
  }

  // ---------- after the loop ----------

  lemma UnderDoneIsBelow(id: NodeId, cs: seq<Child>, b: BlockId, i: nat, path: seq<Byte>)
    requires i <= |cs| && UnderDone(id, cs, b, i, path)
    ensures id.path < path
  {
    var n :| 0 <= n < i && cs[n].blk == b && id.path + [cs[n].anchor] <= path;
    PrefixByte(id.path, cs[n].anchor, path);
  }

  /** A canonical node is still there after the loop. */
  lemma CanonicalKept(st: Store, st1: Store, id: NodeId, cs: seq<Child>, b: BlockId, j: NodeId)
    requires JustifiedBefore(st, st1, id, cs, b, |cs|) && j in st && j.blk == CANONICAL
    ensures j in st1
  {
    if UnderDone(id, cs, b, |cs|, j.path) {
      var n :| 0 <= n < |cs| && cs[n].blk == b && id.path + [cs[n].anchor] <= j.path;
      assert Justified(st, st1, id.path + [cs[n].anchor], b);
    } else {
      assert SameAt(st, st1, j);
    }
  }

  /** The canonical copy of the branch has all its children. */
  lemma SettledBranchOk(st: Store, st1: Store, st': Store, id: NodeId, b: BlockId)
    requires id in st && id.blk == b && b != CANONICAL && st[id].Branch? && BranchOk(st, id, st[id].children)
    requires OnlyTwo(st[id], b) && JustifiedBefore(st, st1, id, st[id].children, b, |st[id].children|)
    requires forall j: NodeId :: j in st1 && j != id ==> j in st'
    ensures BranchOk(st', NodeId(id.path, CANONICAL), Cleared(st[id].children))
  {
    var cs := st[id].children;
    var r := Cleared(cs);
    assert Sorted(r);
    hide Sorted;
    forall i | 0 <= i < |r| ensures r[i].sk != 0 && Below(id, r[i].anchor, CANONICAL) in st' {
      var c := Below(id, cs[i].anchor, cs[i].blk);
      if cs[i].blk == b {
        assert Justified(st, st1, id.path + [cs[i].anchor], b);
      } else {
        hide Justified;
        CanonicalKept(st, st1, id, cs, b, c);
      }
    }
  }

  /** A node strictly below the branch after the loop. */
  lemma SettledBelow(st: Store, st1: Store, st': Store, id: NodeId, b: BlockId, j: NodeId)
    requires GoodBelow(st, id.path) && id in st && id.blk == b && b != CANONICAL && st[id].Branch?
    requires Sorted(st[id].children) && OwnedBelow(st, id.path, b) && Pending(st, id.path, b)
    requires JustifiedBefore(st, st1, id, st[id].children, b, |st[id].children|)
    requires forall i: NodeId :: i in st1 && i != id ==> i in st'
    requires j in st1 && id.path < j.path
    ensures j.blk == CANONICAL && OnlyCanonical(st1[j]) && NodeOk(st', j, st1[j])
  {
    var cs := st[id].children;
    hide Sorted;
    if UnderDone(id, cs, b, |cs|, j.path) {
      var n :| 0 <= n < |cs| && cs[n].blk == b && id.path + [cs[n].anchor] <= j.path;
      assert Justified(st, st1, id.path + [cs[n].anchor], b);
      assert NodeOk(st1, j, st1[j]);
      MoreChildren(st1, st', id, j);
    } else {
      assert SameAt(st, st1, j);
      if j.blk == b {
        assert j == NodeId(j.path, b);
        var n := UnderSomeEntry(st, id, b, j.path);
      }
      SettledKept(st, st1, st', id, b, j);
    }
  }

  lemma MoreChildren(st1: Store, st': Store, id: NodeId, j: NodeId)
    requires j in st1 && id.path < j.path && NodeOk(st1, j, st1[j])
    requires forall i: NodeId :: i in st1 && i != id ==> i in st'
    ensures NodeOk(st', j, st1[j])
  {
    hide Sorted;
    if st1[j].Branch? {
      var cs := st1[j].children;
      forall i | 0 <= i < |cs| ensures Below(j, cs[i].anchor, cs[i].blk) in st' {
        assert |Below(j, cs[i].anchor, cs[i].blk).path| > |id.path|;
      }
    }
  }

  lemma SettledKept(st: Store, st1: Store, st': Store, id: NodeId, b: BlockId, j: NodeId)
    requires GoodBelow(st, id.path) && Pending(st, id.path, b) && j in st && id.path < j.path && j.blk == CANONICAL
    requires id in st && id.blk == b && b != CANONICAL && st[id].Branch?
    requires JustifiedBefore(st, st1, id, st[id].children, b, |st[id].children|)
    requires forall i: NodeId :: i in st1 && i != id ==> i in st'
    ensures OnlyCanonical(st[j]) && NodeOk(st', j, st[j])
  {
    assert NodeOk(st, j, st[j]);
    assert OnlyCanonical(st[j]);
    hide Sorted, JustifiedBefore, Pending, GoodBelow;
    if st[j].Branch? {
      var cs := st[j].children;
      forall i | 0 <= i < |cs| ensures Below(j, cs[i].anchor, cs[i].blk) in st' {
        CanonicalKept(st, st1, id, st[id].children, b, Below(j, cs[i].anchor, cs[i].blk));
      }
    }
  }

  lemma ClearedNext(cs: seq<Child>, x: Byte)
    ensures Next(Cleared(cs), x).Some? <==> Next(cs, x).Some?
    ensures Next(Cleared(cs), x).Some? ==> Next(Cleared(cs), x) == Some(CANONICAL)
  {
    ClearedEntry(cs, x);
  }

  lemma {:induction false} ClearedEntry(cs: seq<Child>, x: Byte)
    ensures Entry(cs, x).None? ==> Entry(Cleared(cs), x).None?
    ensures Entry(cs, x).Some? ==> Entry(Cleared(cs), x) == Some(Entry(cs, x).value.(blk := CANONICAL))
  {
    if cs != [] {
      ClearedEntry(cs[1..], x);
      assert Cleared(cs)[1..] == Cleared(cs[1..]);
    }
  }

  /** The canonical copy of the branch reads what the branch of b read. */
  lemma SettledReads(st: Store, st1: Store, st': Store, id: NodeId, b: BlockId, k: Hash)
    requires id in st && id.blk == b && b != CANONICAL && st[id].Branch? && BranchOk(st, id, st[id].children)
    requires OnlyTwo(st[id], b) && JustifiedBefore(st, st1, id, st[id].children, b, |st[id].children|)
    requires st' == (st1 - {id})[NodeId(id.path, CANONICAL) := Branch(st[id].commit, Cleared(st[id].children))]
    requires id.path <= k
    ensures Lookup(st', NodeId(id.path, CANONICAL), k) == Lookup(st, id, k)
  {
    var cs, x, self := st[id].children, k[|id.path|], NodeId(id.path, CANONICAL);
    hide Lookup, JustifiedBefore, Next, Sorted, OnlyTwo, AgreeBelow;
    ClearedNext(cs, x);
    LookupStep(st, id, k);
    LookupStep(st', self, k);
    PrefixStep(id.path, k);
    if Next(cs, x).Some? {
      var n := NextMember(cs, x);
      SettleAgree(st1, st', id, Branch(st[id].commit, Cleared(cs)), x);
      SettledChildReads(st, st1, id, b, n, k);
      LookupAgree(st1, st', Below(id, x, CANONICAL), k);
    }
  }

  lemma SettledChildReads(st: Store, st1: Store, id: NodeId, b: BlockId, n: nat, k: Hash)
    requires id in st && id.blk == b && b != CANONICAL && st[id].Branch? && BranchOk(st, id, st[id].children)
    requires OnlyTwo(st[id], b) && JustifiedBefore(st, st1, id, st[id].children, b, |st[id].children|)
    requires n < |st[id].children| && id.path + [st[id].children[n].anchor] <= k
    ensures var c := st[id].children[n];
            Lookup(st1, Below(id, c.anchor, CANONICAL), k) == Lookup(st, Below(id, c.anchor, c.blk), k)
  {
    hide Lookup;
    var cs, c := st[id].children, st[id].children[n];
    if c.blk == b {
      assert Justified(st, st1, id.path + [c.anchor], b);
    } else {
      forall m | 0 <= m < |cs| && cs[m].blk == b ensures cs[m].anchor != c.anchor {
        assert m != n;
      }
      hide Sorted;
      UntouchedBelow(st, st1, id, cs, b, |cs|, c.anchor);
      LookupAgree(st, st1, Below(id, c.anchor, CANONICAL), k);
    }
  }

  lemma SettleAgree(st1: Store, st': Store, id: NodeId, n: Node, x: Byte)
    requires st' == (st1 - {id})[NodeId(id.path, CANONICAL) := n]
    ensures AgreeBelow(st1, st', id.path + [x])
  {
    forall j: NodeId | id.path + [x] <= j.path ensures SameAt(st1, st', j) {
      assert |j.path| > |id.path|;
    }
  }

  /** What is not strictly below the branch is not touched by the loop. */
  lemma LoopElsewhere(st: Store, st1: Store, id: NodeId, cs: seq<Child>, b: BlockId, j: NodeId)
    requires JustifiedBefore(st, st1, id, cs, b, |cs|) && !(id.path < j.path)
    ensures SameAt(st, st1, j)
  {
    hide Justified;
    if UnderDone(id, cs, b, |cs|, j.path) {
      UnderDoneIsBelow(id, cs, b, |cs|, j.path);
    }
  }

  lemma OnlyTwoHere(st: Store, b: BlockId, j: NodeId)
    requires Pending(st, j.path, b) && j in st
    ensures j == NodeId(j.path, b) || j == NodeId(j.path, CANONICAL)
  {
  }

  lemma SettledNode(st: Store, st1: Store, st': Store, id: NodeId, b: BlockId, j: NodeId)
    requires GoodBelow(st, id.path) && id in st && id.blk == b && b != CANONICAL && st[id].Branch?
    requires OwnedBelow(st, id.path, b) && Pending(st, id.path, b)
    requires JustifiedBefore(st, st1, id, st[id].children, b, |st[id].children|)
    requires st' == (st1 - {id})[NodeId(id.path, CANONICAL) := Branch(st[id].commit, Cleared(st[id].children))]
    requires j in st1 && j != id && j != NodeId(id.path, CANONICAL) && id.path <= j.path
    ensures j.blk == CANONICAL && OnlyCanonical(st1[j]) && NodeOk(st', j, st1[j])
  {
    assert NodeOk(st, id, st[id]);
    hide GoodBelow, OwnedBelow, Pending, JustifiedBefore, Sorted;
    if id.path == j.path {
      LoopElsewhere(st, st1, id, st[id].children, b, j);
      OnlyTwoHere(st, b, j);
    } else {
      SettledBelow(st, st1, st', id, b, j);
    }
  }

  lemma BranchSettled(st: Store, st1: Store, st': Store, id: NodeId, b: BlockId)
    requires GoodBelow(st, id.path) && id in st && id.blk == b && b != CANONICAL && st[id].Branch?
    requires OwnedBelow(st, id.path, b) && Pending(st, id.path, b)
    requires JustifiedBefore(st, st1, id, st[id].children, b, |st[id].children|) && st[id].children != []
    requires st' == (st1 - {id})[NodeId(id.path, CANONICAL) := Branch(st[id].commit, Cleared(st[id].children))]
    ensures Justified(st, st', id.path, b)
    ensures forall i: NodeId :: !(id.path <= i.path) ==> SameAt(st, st', i)
  {
    hide OwnedBelow, Pending, JustifiedBefore, Lookup, GoodBelow, OnlyCanonical;
    SettledInside(st, st1, st', id, b);
    forall i: NodeId | !(id.path <= i.path) ensures SameAt(st, st', i) {
      LoopElsewhere(st, st1, id, st[id].children, b, i);
    }
    forall j | j in st && id.path <= j.path && j.blk == CANONICAL ensures j in st' {
      CanonicalKept(st, st1, id, st[id].children, b, j);
    }
    SettledAllReads(st, st1, st', id, b);
  }

  lemma SettledInside(st: Store, st1: Store, st': Store, id: NodeId, b: BlockId)
    requires GoodBelow(st, id.path) && id in st && id.blk == b && b != CANONICAL && st[id].Branch?
    requires OwnedBelow(st, id.path, b) && Pending(st, id.path, b)
    requires JustifiedBefore(st, st1, id, st[id].children, b, |st[id].children|) && st[id].children != []
    requires st' == (st1 - {id})[NodeId(id.path, CANONICAL) := Branch(st[id].commit, Cleared(st[id].children))]
    ensures GoodBelow(st', id.path)
    ensures forall j :: j in st' && id.path <= j.path ==> j.blk == CANONICAL && OnlyCanonical(st'[j])
  {
    hide OwnedBelow, Pending, JustifiedBefore, NodeOk, OnlyCanonical, Cleared;
    var self := NodeId(id.path, CANONICAL);
    SettledSelf(st, st1, st', id, b);
    forall j | j in st' && id.path <= j.path
      ensures j.blk == CANONICAL && OnlyCanonical(st'[j]) && NodeOk(st', j, st'[j])
    {
      if j != self {
        SettledNode(st, st1, st', id, b, j);
      }
    }
  }

  lemma SettledSelf(st: Store, st1: Store, st': Store, id: NodeId, b: BlockId)
    requires GoodBelow(st, id.path) && id in st && id.blk == b && b != CANONICAL && st[id].Branch? &&
             Pending(st, id.path, b)
    requires JustifiedBefore(st, st1, id, st[id].children, b, |st[id].children|)
    requires forall j: NodeId :: j in st1 && j != id ==> j in st'
    ensures var n := Branch(st[id].commit, Cleared(st[id].children));
            OnlyCanonical(n) && NodeOk(st', NodeId(id.path, CANONICAL), n)
  {
    assert NodeOk(st, id, st[id]) && OnlyTwo(st[id], b);
    hide Pending, GoodBelow, JustifiedBefore, Sorted, OnlyTwo;
    SettledBranchOk(st, st1, st', id, b);
  }

  lemma SettledAllReads(st: Store, st1: Store, st': Store, id: NodeId, b: BlockId)
    requires GoodBelow(st, id.path) && id in st && id.blk == b && b != CANONICAL && st[id].Branch? &&
             Pending(st, id.path, b)
    requires JustifiedBefore(st, st1, id, st[id].children, b, |st[id].children|)
    requires st' == (st1 - {id})[NodeId(id.path, CANONICAL) := Branch(st[id].commit, Cleared(st[id].children))]
    ensures forall k: Hash :: id.path <= k ==>
            Lookup(st', NodeId(id.path, CANONICAL), k) == Lookup(st, NodeId(id.path, b), k)
  {
    assert NodeOk(st, id, st[id]) && OnlyTwo(st[id], b);
    hide Pending, JustifiedBefore, Sorted, Lookup, BranchOk, OnlyTwo, GoodBelow;
    forall k: Hash | id.path <= k ensures Lookup(st', NodeId(id.path, CANONICAL), k) ==
        Lookup(st, NodeId(id.path, b), k) {
      SettledReads(st, st1, st', id, b, k);
    }
  }

  /** Main result at a node of b that is not the empty root. */
  lemma {:induction false} JustifyCorrect(st: Store, id: NodeId, b: BlockId)
    requires GoodBelow(st, id.path) && id in st && id.blk == b && b != CANONICAL
    requires st[id].Branch? && id.path == [] ==> st[id].children != []
    requires OwnedBelow(st, id.path, b) && Pending(st, id.path, b)
    ensures JustifyAt(st, id, b).0 == Ok
    ensures Justified(st, JustifyAt(st, id, b).1, id.path, b)
    ensures forall i: NodeId :: !(id.path <= i.path) ==> SameAt(st, JustifyAt(st, id, b).1, i)
    decreases ACCOUNT_SIZE - |id.path|, 1, 0
  {
    assert NodeOk(st, id, st[id]);
    if st[id].Leaf? {
      JustifyLeaf(st, id, b);
    } else {
      var cs := st[id].children;
      JustifyLoop(st, st, id, cs, b, 0);
      var st1 := JustifyChildren(st, id, cs, b, 0).1;
      var n, self := Branch(st[id].commit, Cleared(cs)), NodeId(id.path, CANONICAL);
      var st' := JustifyAt(st, id, b).1;
      assert st' == (st1 - {id})[self := n];
      hide Justified, JustifiedBefore, GoodBelow, OwnedBelow, Pending, Sorted, NodeOk, JustifyAt, JustifyChildren;
      BranchSettled(st, st1, st', id, b);
    }
  }

  // ---------- the whole block ----------

  /** Some account can be read from every leaf and from every branch with an entry. */
  lemma {:induction false} SomeAccount(st: Store, id: NodeId) returns (k: Hash)
    requires Good(st) && id in st && (st[id].Branch? ==> st[id].children != [])
    ensures id.path <= k && Lookup(st, id, k).Some?
    decreases ACCOUNT_SIZE - |id.path|
  {
    assert NodeOk(st, id, st[id]);
    if st[id].Leaf? {
      k := st[id].path;
    } else {
      var c := st[id].children[0];
      var child := Below(id, c.anchor, c.blk);
      assert child in st;
      assert NodeOk(st, child, st[child]);
      k := SomeAccount(st, child);
      PrefixByte(id.path, c.anchor, k);
      assert k[|id.path|] == c.anchor && id.path <= k;
      MemberIsEntry(st[id].children, 0);
    }
  }

  ghost predicate EmptyRoot(st: Store, b: BlockId) {
    RootId(b) in st ==> st[RootId(b)].Branch? && st[RootId(b)].children == []
  }

  lemma EmptyReads(st: Store, b: BlockId, k: Hash)
    requires EmptyRoot(st, b)
    ensures Lookup(st, RootId(b), k) == None
  {
  }

  /** Main result for a block that is the only one pending: the store becomes purely canonical, and
      canonical reads what b read, unless b has no accounts while canonical has some: then the code
      only drops b's root. */
  lemma JustifyBlock(st: Store, b: BlockId)
    requires Good(st) && Owned(st, b) && Pending(st, [], b) && RootId(b) in st && b != CANONICAL
    ensures var (rc, st') := JustifyAt(st, RootId(b), b);
            && rc in {Ok, Deleted}
            && Good(st')
            && (forall id :: id in st' ==> id.blk == CANONICAL && OnlyCanonical(st'[id]))
            && ((forall k :: Lookup(st', RootId(CANONICAL), k) == Lookup(st, RootId(b), k))
                <==> !EmptyRoot(st, b) || EmptyRoot(st, CANONICAL))
  {
    var root := RootId(b);
    assert NodeOk(st, root, st[root]);
    assert GoodBelow(st, []);
    if EmptyRoot(st, b) {
      JustifyEmpty(st, b);
    } else {
      JustifyCorrect(st, root, b);
      var st' := JustifyAt(st, root, b).1;
      forall id | id in st' ensures id.blk == CANONICAL && OnlyCanonical(st'[id]) && NodeOk(st', id, st'[id]) {
        assert [] <= id.path;
      }
      forall k: Hash ensures Lookup(st', RootId(CANONICAL), k) == Lookup(st, root, k) {
        assert [] <= k;
      }
    }
  }

  lemma JustifyEmpty(st: Store, b: BlockId)
    requires Good(st) && Owned(st, b) && Pending(st, [], b) && RootId(b) in st && b != CANONICAL && EmptyRoot(st, b)
    ensures JustifyAt(st, RootId(b), b) == (Deleted, st - {RootId(b)})
    ensures var st' := st - {RootId(b)};
            && Good(st')
            && (forall id :: id in st' ==> id.blk == CANONICAL && OnlyCanonical(st'[id]))
            && ((forall k :: Lookup(st', RootId(CANONICAL), k) == Lookup(st, RootId(b), k)) <==>
                EmptyRoot(st, CANONICAL))
  {
    var st' := st - {RootId(b)};
    assert NodeOk(st, RootId(b), st[RootId(b)]);
    EmptyStore(st, b);
    hide Owned, Pending, JustifyAt, Lookup;
    forall k: Hash ensures Lookup(st, RootId(b), k) == None {
      EmptyReads(st, b, k);
    }
    if EmptyRoot(st, CANONICAL) {
      forall k: Hash ensures Lookup(st', RootId(CANONICAL), k) == None {
        EmptyReads(st', CANONICAL, k);
      }
    } else {
      assert NodeOk(st, RootId(CANONICAL), st[RootId(CANONICAL)]);
      hide Good;
      var k := SomeAccount(st', RootId(CANONICAL));
    }
  }

  /** No node points to a root. */
  lemma GoodWithout(st: Store, b: BlockId)
    requires Good(st)
    ensures Good(st - {RootId(b)})
  {
    forall id | id in st - {RootId(b)}
      ensures NodeOk(st - {RootId(b)}, id, st[id])
    {
      assert NodeOk(st, id, st[id]);
    }
  }

  lemma EmptyDeletes(st: Store, b: BlockId)
    requires RootId(b) in st && EmptyRoot(st, b)
    ensures JustifyAt(st, RootId(b), b) == (Deleted, st - {RootId(b)})
  {
    assert JustifyChildren(st, RootId(b), [], b, 0) == (Ok, st);
  }

  /** Without an entry in its root, a block has no other node. */
  lemma EmptyStore(st: Store, b: BlockId)
    requires Good(st) && Owned(st, b) && Pending(st, [], b) && RootId(b) in st && b != CANONICAL && EmptyRoot(st, b)
    ensures JustifyAt(st, RootId(b), b) == (Deleted, st - {RootId(b)})
    ensures var st' := st - {RootId(b)};
            Good(st') && forall id :: id in st' ==> id.blk == CANONICAL && OnlyCanonical(st'[id])
  {
    hide JustifyAt, Good, NodeOk;
    EmptyDeletes(st, b);
    GoodWithout(st, b);
    var st' := st - {RootId(b)};
    forall id | id in st' ensures id.blk == CANONICAL && OnlyCanonical(st'[id]) {
      assert [] <= id.path;
      if id.blk == b {
        assert id == NodeId(id.path, b);
        assert [] < id.path;
        OwnedChain(st, [], id.path, b);
      }
    }
  }
}

/** Finalizing a block: commitments from the leaves up (branch.cpp:354-417, leaf.h:68-79, branch.h:111-121,
    processing.cpp:31-103).
 */
module Finalizing {
  import opened Scalars
  import opened Kzg
  import opened TrieTypes
  import opened Children
  import opened Trie
  import opened Ownership

  /** The roots, the secret and the hash of a commitment (hash_p1_to_scalar). */
  datatype Crypto = Crypto(w: Scalar, v: Scalar, s: Scalar, hash: Scalar -> Scalar)

  /** A hash as a scalar: little-endian, reduced (blst_scalar_from_le_bytes). */
  function ToScalar(h: seq<Byte>): (x: Scalar) {
    Mod(P, LittleEndian(h))
  }

  function LittleEndian(h: seq<Byte>): (n: nat) {
    if h == [] then 0 else h[0] + 256 * LittleEndian(h[1..])
  }

  /** The values a leaf commits to: its slots, then zeros. */
  function LeafValues(slots: seq<Hash>): (r: seq<Scalar>)
    ensures |r| == BRANCH_ORDER
  {
    seq(BRANCH_ORDER, i requires 0 <= i < BRANCH_ORDER => if i < |slots| then ToScalar(slots[i]) else 0)
  }

  /** The values a branch commits to: the scalar of every child, zero elsewhere. */
  function BranchValues(cs: seq<Child>): (r: seq<Scalar>)
    ensures |r| == BRANCH_ORDER
  {
    seq(BRANCH_ORDER, i requires 0 <= i < BRANCH_ORDER => ScalarAt(cs, i))
  }

  function ScalarAt(cs: seq<Child>, nib: Byte): (x: Scalar) {
    match Entry(cs, nib)
    case None => 0
    case Some(c) => c.sk
  }

  function Commit(k: Crypto, values: seq<Scalar>): (c: Scalar) {
    Commitment(values, k.v, k.s)
  }

  // ---------- the finished form of every node ----------

  /** The node as finalize leaves it: entries of b carry the hash of the finished child. */
  function Final(k: Crypto, st: Store, id: NodeId, b: BlockId): (n: Node)
    requires id in st
    decreases ACCOUNT_SIZE - |id.path|, 1, 0
  {
    match st[id]
    case Leaf(_, _, slots, _) => st[id].(commit := Commit(k, LeafValues(slots)))
    case Branch(_, cs) =>
      if |id.path| >= ACCOUNT_SIZE then st[id]
      else
        var cs' := FinalChildren(k, st, id, cs, b);
        Branch(Commit(k, BranchValues(cs')), cs')
  }

  function FinalChildren(k: Crypto, st: Store, id: NodeId, cs: seq<Child>, b: BlockId): (r: seq<Child>)
    requires |id.path| < ACCOUNT_SIZE
    ensures |r| == |cs|
    decreases ACCOUNT_SIZE - |id.path|, 0, |cs|
  {
    if cs == [] then [] else [FinalChild(k, st, id, cs[0], b)] + FinalChildren(k, st, id, cs[1..], b)
  }

  function FinalChild(k: Crypto, st: Store, id: NodeId, c: Child, b: BlockId): (r: Child)
    requires |id.path| < ACCOUNT_SIZE
    decreases ACCOUNT_SIZE - |id.path|, 0, 0
  {
    var child := Below(id, c.anchor, b);
    if c.blk == b && c.sk != 0 && child in st then c.(sk := k.hash(Final(k, st, child, b).commit)) else c
  }

  lemma {:induction false} FinalChildrenAt(k: Crypto, st: Store, id: NodeId, cs: seq<Child>, b: BlockId, i: nat)
    requires |id.path| < ACCOUNT_SIZE && i < |cs|
    ensures FinalChildren(k, st, id, cs, b)[i] == FinalChild(k, st, id, cs[i], b)
    decreases |cs|
  {
    if i > 0 {
      FinalChildrenAt(k, st, id, cs[1..], b, i - 1);
    }
  }

  /** The finished form depends only on what is below. */
  lemma {:induction false} FinalAgree(k: Crypto, st: Store, st': Store, id: NodeId, b: BlockId)
    requires id in st && AgreeBelow(st, st', id.path)
    ensures id in st' && Final(k, st, id, b) == Final(k, st', id, b)
    decreases ACCOUNT_SIZE - |id.path|, 1, 0
  {
    assert SameAt(st, st', id);
    if st[id].Branch? && |id.path| < ACCOUNT_SIZE {
      hide Commit, BranchValues;
      FinalChildrenAgree(k, st, st', id, st[id].children, b);
    }
  }

  lemma {:induction false} FinalChildrenAgree(k: Crypto, st: Store, st': Store, id: NodeId, cs: seq<Child>, b: BlockId)
    requires |id.path| < ACCOUNT_SIZE && AgreeBelow(st, st', id.path)
    ensures FinalChildren(k, st, id, cs, b) == FinalChildren(k, st', id, cs, b)
    decreases ACCOUNT_SIZE - |id.path|, 0, |cs|
  {
    if cs != [] {
      var child := Below(id, cs[0].anchor, b);
      AgreeDeeper(st, st', id.path, child.path);
      assert SameAt(st, st', child);
      if child in st {
        FinalAgree(k, st, st', child, b);
      }
      FinalChildrenAgree(k, st, st', id, cs[1..], b);
    }
  }

  // ---------- stores on the way ----------

  /** No commitment hashes to the zero scalar, which would mark an entry as absent. */
  ghost predicate NonzeroHash(k: Crypto) {
    forall x: Scalar :: k.hash(x) != 0
  }

  /** n' is the node at id with some of the work done. */
  ghost predicate Half(k: Crypto, st: Store, id: NodeId, n': Node, b: BlockId)
    requires id in st
  {
    match st[id]
    case Leaf(_, _, _, _) => n' == st[id] || (id.blk == b && n' == st[id].(commit := n'.commit))
    case Branch(_, cs) =>
      if id.blk != b || |id.path| >= ACCOUNT_SIZE then n' == st[id]
      else
        && n'.Branch?
        && |n'.children| == |cs|
        && forall i :: 0 <= i < |cs| ==> n'.children[i] == cs[i] || n'.children[i] == FinalChild(k, st, id, cs[i], b)
  }

  ghost predicate Between(k: Crypto, st: Store, st': Store, b: BlockId) {
    && st'.Keys == st.Keys
    && forall id :: id in st ==> Half(k, st, id, st'[id], b)
  }

  lemma FinalChildShape(k: Crypto, st: Store, id: NodeId, c: Child, b: BlockId)
    requires NonzeroHash(k) && |id.path| < ACCOUNT_SIZE
    ensures var r := FinalChild(k, st, id, c, b);
            r.anchor == c.anchor && r.end == c.end && r.blk == c.blk && (r.sk == 0 <==> c.sk == 0)
  {
    var child := Below(id, c.anchor, b);
    if child in st {
      assert k.hash(Final(k, st, child, b).commit) != 0;
    }
  }

  /** What is finished already does not change what the rest becomes. */
  lemma {:induction false} FinalBetween(k: Crypto, st: Store, st': Store, id: NodeId, b: BlockId)
    requires NonzeroHash(k) && Between(k, st, st', b) && id in st && id.blk == b
    ensures Final(k, st', id, b) == Final(k, st, id, b)
    decreases ACCOUNT_SIZE - |id.path|, 1
  {
    assert Half(k, st, id, st'[id], b);
    if st[id].Branch? && |id.path| < ACCOUNT_SIZE {
      var cs, cs' := st[id].children, st'[id].children;
      var f, f' := FinalChildren(k, st, id, cs, b), FinalChildren(k, st', id, cs', b);
      forall i | 0 <= i < |cs| ensures f[i] == f'[i] {
        FinalChildrenAt(k, st, id, cs, b, i);
        FinalChildrenAt(k, st', id, cs', b, i);
        FinalChildBetween(k, st, st', id, b, i);
      }
      assert f == f';
    }
  }

  lemma {:induction false} FinalChildBetween(k: Crypto, st: Store, st': Store, id: NodeId, b: BlockId, i: nat)
    requires NonzeroHash(k) && Between(k, st, st', b) && id in st && id.blk == b && st[id].Branch?
    requires |id.path| < ACCOUNT_SIZE && i < |st[id].children|
    ensures st'[id].Branch? && |st'[id].children| == |st[id].children|
    ensures FinalChild(k, st', id, st'[id].children[i], b) == FinalChild(k, st, id, st[id].children[i], b)
    decreases ACCOUNT_SIZE - |id.path|, 0
  {
    assert Half(k, st, id, st'[id], b);
    var c := st[id].children[i];
    FinalChildShape(k, st, id, c, b);
    var child := Below(id, c.anchor, b);
    if child in st {
      hide Half;
      FinalBetween(k, st, st', child, b);
    }
  }

  lemma NextBetween(k: Crypto, st: Store, st': Store, id: NodeId, b: BlockId, nib: Byte)
    requires NonzeroHash(k) && Between(k, st, st', b) && id in st && st[id].Branch?
    ensures st'[id].Branch? && Next(st'[id].children, nib) == Next(st[id].children, nib)
  {
    assert Half(k, st, id, st'[id], b);
    if id.blk == b && |id.path| < ACCOUNT_SIZE {
      var cs, cs' := st[id].children, st'[id].children;
      forall i | 0 <= i < |cs| ensures SameShape(cs[i], cs'[i]) {
        FinalChildShape(k, st, id, cs[i], b);
      }
      ShapeNext(cs, cs', nib);
    }
  }

  predicate SameShape(c: Child, c': Child) {
    c'.anchor == c.anchor && c'.end == c.end && c'.blk == c.blk && (c'.sk == 0 <==> c.sk == 0)
  }

  lemma {:induction false} ShapeNext(cs: seq<Child>, cs': seq<Child>, nib: Byte)
    requires |cs| == |cs'| && forall i :: 0 <= i < |cs| ==> SameShape(cs[i], cs'[i])
    ensures Next(cs', nib) == Next(cs, nib)
    decreases |cs|
  {
    if cs != [] && !(cs[0].anchor <= nib <= cs[0].end) {
      forall i | 0 <= i < |cs[1..]| ensures SameShape(cs[1..][i], cs'[1..][i]) {
      }
      ShapeNext(cs[1..], cs'[1..], nib);
    }
  }

  /** Finalizing, even half-way, changes no reading of any block. */
  lemma {:induction false} LookupBetween(k: Crypto, st: Store, st': Store, b: BlockId, id: NodeId, key: Hash)
    requires NonzeroHash(k) && Between(k, st, st', b)
    ensures Lookup(st', id, key) == Lookup(st, id, key)
    decreases ACCOUNT_SIZE - |id.path|
  {
    if id in st && |id.path| < ACCOUNT_SIZE {
      assert Half(k, st, id, st'[id], b);
      if st[id].Branch? {
        var nib := key[|id.path|];
        NextBetween(k, st, st', id, b, nib);
        hide Half, Between, Next;
        var next := Next(st[id].children, nib);
        if next.Some? {
          LookupBetween(k, st, st', b, Below(id, nib, next.value), key);
        }
      }
    }
  }

  lemma BranchBetween(k: Crypto, st: Store, st': Store, id: NodeId, b: BlockId)
    requires NonzeroHash(k) && Between(k, st, st', b) && id in st && NodeOk(st, id, st[id])
    ensures NodeOk(st', id, st'[id])
  {
    assert Half(k, st, id, st'[id], b);
    if st[id].Branch? {
      var cs, cs' := st[id].children, st'[id].children;
      if id.blk == b {
        forall i | 0 <= i < |cs| ensures SameShape(cs[i], cs'[i]) {
          FinalChildShape(k, st, id, cs[i], b);
        }
      }
    }
  }

  lemma GoodBetween(k: Crypto, st: Store, st': Store, b: BlockId, path: seq<Byte>)
    requires NonzeroHash(k) && Between(k, st, st', b) && GoodBelow(st, path)
    ensures GoodBelow(st', path)
  {
    hide NodeOk;
    forall id | id in st' && path <= id.path ensures NodeOk(st', id, st'[id]) {
      BranchBetween(k, st, st', id, b);
    }
  }

  lemma OwnedBetween(k: Crypto, st: Store, st': Store, b: BlockId, path: seq<Byte>, c: BlockId)
    requires NonzeroHash(k) && Between(k, st, st', b) && OwnedBelow(st, path, c)
    ensures OwnedBelow(st', path, c)
  {
    forall id | id in st' && id.blk == c && path < id.path ensures OwnedAt(st', id.path, c) {
      assert OwnedAt(st, id.path, c);
      NextBetween(k, st, st', NodeId(id.path[..|id.path| - 1], c), b, id.path[|id.path| - 1]);
    }
  }
}

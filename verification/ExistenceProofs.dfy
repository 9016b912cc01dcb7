/** Existence proofs from a finalized block, and their verification (branch.cpp:179-213, leaf.cpp:177-199,
    processing.cpp:144-310).
 */
module ExistenceProofs {
  import opened Options
  import opened Scalars
  import opened Polynomials
  import opened BitReversal
  import opened Fft
  import opened InverseFft
  import opened Kzg
  import opened TrieTypes
  import opened Children
  import opened Trie
  import opened TrieOps
  import opened Isolation
  import opened Finalizing
  import opened FinalizeRanges
  import opened FinalizeBlock

  // ---------- finished trees ----------

  /** Every commitment below is that of its node, and every entry holds the hash of its child's. */
  ghost predicate Sealed(k: Crypto, st: Store, id: NodeId)
    decreases ACCOUNT_SIZE - |id.path|
  {
    && id in st
    && |id.path| < ACCOUNT_SIZE
    && match st[id]
       case Leaf(commit, _, slots, _) => commit == Commit(k, LeafValues(slots))
       case Branch(commit, cs) =>
         && commit == Commit(k, BranchValues(cs))
         && forall i :: 0 <= i < |cs| ==> SealedChild(k, st, id, cs[i])
  }

  ghost predicate SealedChild(k: Crypto, st: Store, id: NodeId, c: Child)
    requires |id.path| < ACCOUNT_SIZE
    decreases ACCOUNT_SIZE - |id.path|, 0
  {
    var child := Below(id, c.anchor, c.blk);
    child in st && c.sk == k.hash(st[child].commit) && Sealed(k, st, child)
  }

  /** All that the block took over from others is finished. */
  ghost predicate OthersSealed(k: Crypto, st: Store, id: NodeId, b: BlockId)
    decreases ACCOUNT_SIZE - |id.path|
  {
    && id in st
    && |id.path| < ACCOUNT_SIZE
    && (st[id].Branch? ==>
          forall i :: 0 <= i < |st[id].children| ==> OthersSealedChild(k, st, id, st[id].children[i], b))
  }

  ghost predicate OthersSealedChild(k: Crypto, st: Store, id: NodeId, c: Child, b: BlockId)
    requires |id.path| < ACCOUNT_SIZE
    decreases ACCOUNT_SIZE - |id.path|, 0
  {
    if c.blk == b then OthersSealed(k, st, Below(id, c.anchor, b), b) else SealedChild(k, st, id, c)
  }

  /** A finished tree that b has no part in stays finished. */
  lemma {:induction false} SealedUndisturbed(k: Crypto, st: Store, st': Store, id: NodeId, b: BlockId)
    requires Sealed(k, st, id) && SameOutside(st, st', b) && Exclusive(st, b) && id.blk != b
    ensures Sealed(k, st', id)
    decreases ACCOUNT_SIZE - |id.path|
  {
    assert SameAt(st, st', id);
    if st[id].Branch? {
      var cs := st[id].children;
      assert NoChildOf(st[id], b);
      hide Commit, BranchValues, Exclusive;
      forall i | 0 <= i < |cs| ensures SealedChild(k, st', id, cs[i]) {
        assert SealedChild(k, st, id, cs[i]);
        var child := Below(id, cs[i].anchor, cs[i].blk);
        assert SameAt(st, st', child);
        SealedUndisturbed(k, st, st', child, b);
      }
    }
  }

  /** Main result for finalize: the whole block is finished exactly if all that it took over was. */
  lemma FinalizedIsSealed(k: Crypto, st: Store, id: NodeId, b: BlockId)
    requires NonzeroHash(k) && Good(st) && Exclusive(st, b) && id.blk == b
    ensures Sealed(k, FinalStore(k, st, [], b), id) <==> OthersSealed(k, st, id, b)
  {
    if OthersSealed(k, st, id, b) {
      FinishedWhole(k, st, id, b);
    }
    if Sealed(k, FinalStore(k, st, [], b), id) {
      FinishedBefore(k, st, id, b);
    }
  }

  lemma {:induction false} FinishedBefore(k: Crypto, st: Store, id: NodeId, b: BlockId)
    requires Good(st) && Exclusive(st, b) && id.blk == b && Sealed(k, FinalStore(k, st, [], b), id)
    ensures OthersSealed(k, st, id, b)
    decreases ACCOUNT_SIZE - |id.path|
  {
    var st' := FinalStore(k, st, [], b);
    FinalStoreAt(k, st, b, id);
    FinalOutside(k, st, b);
    if st[id].Branch? {
      var cs := st[id].children;
      var cs' := FinalChildren(k, st, id, cs, b);
      hide Commit, BranchValues, Good, FinalStore, Sorted;
      forall i | 0 <= i < |cs| ensures OthersSealedChild(k, st, id, cs[i], b) {
        FinalChildrenAt(k, st, id, cs, b, i);
        assert SealedChild(k, st', id, cs'[i]);
        if cs[i].blk == b {
          FinishedBefore(k, st, Below(id, cs[i].anchor, b), b);
        } else {
          ExclusiveSelf(st, st', b);
          SealedChildUndisturbed(k, st', st, id, cs[i], b);
        }
      }
    }
  }

  lemma {:induction false} FinishedWhole(k: Crypto, st: Store, id: NodeId, b: BlockId)
    requires NonzeroHash(k) && Good(st) && Exclusive(st, b) && id.blk == b && OthersSealed(k, st, id, b)
    ensures Sealed(k, FinalStore(k, st, [], b), id)
    decreases ACCOUNT_SIZE - |id.path|
  {
    var st' := FinalStore(k, st, [], b);
    assert [] <= id.path;
    assert st'[id] == Final(k, st, id, b);
    if st[id].Branch? {
      assert NodeOk(st, id, st[id]);
      var cs := st[id].children;
      var cs' := FinalChildren(k, st, id, cs, b);
      hide Commit, BranchValues, Good, FinalStore, Sorted;
      forall i | 0 <= i < |cs'| ensures SealedChild(k, st', id, cs'[i]) {
        FinalChildrenAt(k, st, id, cs, b, i);
        if cs[i].blk == b {
          var child := Below(id, cs[i].anchor, b);
          assert OthersSealedChild(k, st, id, cs[i], b);
          FinishedWhole(k, st, child, b);
          FinalStoreAt(k, st, b, child);
        } else {
          FinalOutside(k, st, b);
          assert OthersSealedChild(k, st, id, cs[i], b);
          SealedChildUndisturbed(k, st, st', id, cs[i], b);
        }
      }
    }
  }

  lemma FinalStoreAt(k: Crypto, st: Store, b: BlockId, i: NodeId)
    requires i in st && i.blk == b
    ensures i in FinalStore(k, st, [], b) && FinalStore(k, st, [], b)[i] == Final(k, st, i, b)
  {
    assert [] <= i.path;
  }

  lemma FinalOutside(k: Crypto, st: Store, b: BlockId)
    ensures SameOutside(st, FinalStore(k, st, [], b), b)
  {
    hide Final;
  }

  lemma SealedChildUndisturbed(k: Crypto, st: Store, st': Store, id: NodeId, c: Child, b: BlockId)
    requires |id.path| < ACCOUNT_SIZE && c.blk != b && SealedChild(k, st, id, c)
    requires SameOutside(st, st', b) && Exclusive(st, b)
    ensures SealedChild(k, st', id, c)
  {
    var child := Below(id, c.anchor, c.blk);
    assert SameAt(st, st', child);
    SealedUndisturbed(k, st, st', child, b);
  }

  // ---------- the values and commitments on the way ----------

  datatype Opened = Opened(code: Code, fxs: seq<seq<Scalar>>, cs: seq<Scalar>)

  /** generate_proof of the nodes: from the leaf up; the leaf's commitment is listed twice. */
  function OpenPath(st: Store, id: NodeId, key: Hash): (r: Opened)
    decreases ACCOUNT_SIZE - |id.path|
  {
    if id !in st || |id.path| >= ACCOUNT_SIZE then Opened(LoadNodeErr, [], [])
    else
      match st[id]
      case Leaf(commit, path, slots, _) =>
        var nib := key[ACCOUNT_SIZE];
        if !SamePath(path, key, |id.path|) || nib >= |slots| || slots[nib] == ZERO_HASH then Opened(NotExist, [], [])
        else Opened(Ok, [LeafValues(slots)], [commit, commit])
      case Branch(commit, cs) =>
        match Next(cs, key[|id.path|])
        case None => Opened(NotExist, [], [])
        case Some(c) =>
          var r := OpenPath(st, Below(id, key[|id.path|], c), key);
          if r.code != Ok then r else Opened(Ok, r.fxs + [BranchValues(cs)], r.cs + [commit])
  }

  /** A proof is produced exactly for a slot that exists and is not zero. */
  lemma {:induction false} OpenPathResult(st: Store, id: NodeId, key: Hash)
    requires Good(st) && id in st
    ensures var slots, nib := Lookup(st, id, key), key[ACCOUNT_SIZE];
            OpenPath(st, id, key).code == if slots.Some? && nib < |slots.value| &&
                slots.value[nib] != ZERO_HASH then Ok else NotExist
    decreases ACCOUNT_SIZE - |id.path|
  {
    assert NodeOk(st, id, st[id]);
    if st[id].Branch? {
      var nib := key[|id.path|];
      NextOk(st, id, st[id].children, nib);
      var next := Next(st[id].children, nib);
      hide Next, Good, NodeOk, BranchValues, LeafValues;
      if next.Some? {
        OpenPathResult(st, Below(id, nib, next.value), key);
      }
    }
  }

  /** The value claimed there: the key, the value hash, then the hash of the commitment below. */
  function YValue(c: Crypto, key: Hash, val: Hash, cs: seq<Scalar>, k: nat): (y: Scalar)
    requires k < |cs|
  {
    if k == 0 then ToScalar(key[ACCOUNT_SIZE := 0])
    else if k == 1 then ToScalar(val)
    else c.hash(cs[k - 1])
  }

  /** The vector opened in the k-th listed commitment. */
  function FxOf(fxs: seq<seq<Scalar>>, k: nat): (f: seq<Scalar>)
    requires k <= |fxs| && fxs != []
  {
    if k == 0 then fxs[0] else fxs[k - 1]
  }

  /** Everything listed agrees: each commitment is that of its vector, and the vector takes the
      claimed value at the opened index. The list is as long as the level of the leaf plus two. */
  ghost predicate Consistent(c: Crypto, key: Hash, val: Hash, o: Opened, level: nat, base: nat) {
    && o.fxs != [] && |o.cs| == |o.fxs| + 1
    && |o.fxs| == level - base + 1
    && forall k :: 0 <= k < |o.cs| ==> ConsistentAt(c, key, val, o, level, k)
  }

  ghost predicate ConsistentAt(c: Crypto, key: Hash, val: Hash, o: Opened, level: nat, k: nat)
    requires o.fxs != [] && |o.cs| == |o.fxs| + 1 && k < |o.cs|
  {
    && |FxOf(o.fxs, k)| == BRANCH_ORDER
    && o.cs[k] == Commit(c, FxOf(o.fxs, k))
    && (k >= 2 ==> k - 2 < level <= ACCOUNT_SIZE)
    && var z: Byte := if k == 0 then 0 else if k == 1 then key[ACCOUNT_SIZE] else key[level + 1 - k];
       FxOf(o.fxs, k)[z] == YValue(c, key, val, o.cs, k)
  }

  lemma LeafConsistent(c: Crypto, st: Store, id: NodeId, key: Hash)
    requires id in st && st[id].Leaf? && LeafOk(id, st[id]) && Sealed(c, st, id) && id.path <= key
    requires OpenPath(st, id, key).code == Ok
    ensures var o := OpenPath(st, id, key);
            && Lookup(st, id, key) == Some(st[id].slots) && key[ACCOUNT_SIZE] < LEAF_ORDER
            && Consistent(c, key, st[id].slots[key[ACCOUNT_SIZE]], o, |id.path|, |id.path|)
  {
    var leaf, nib := st[id], key[ACCOUNT_SIZE];
    SameAccount(id.path, leaf.path, key);
    WholePath(leaf.path, key);
    hide Commit, ToScalar;
    var o := OpenPath(st, id, key);
    assert o.fxs == [LeafValues(leaf.slots)] && o.cs == [leaf.commit, leaf.commit];
    assert ConsistentAt(c, key, leaf.slots[nib], o, |id.path|, 0);
    assert ConsistentAt(c, key, leaf.slots[nib], o, |id.path|, 1);
  }

  lemma WholePath(path: Hash, key: Hash)
    requires Account(path) == Account(key) && path[ACCOUNT_SIZE] == 0
    ensures path == key[ACCOUNT_SIZE := 0]
  {
    forall i | 0 <= i < 32 ensures path[i] == key[ACCOUNT_SIZE := 0][i] {
      if i < ACCOUNT_SIZE {
        assert Account(path)[i] == Account(key)[i];
      }
    }
  }

  /** One more branch on the way up. */
  lemma ConsistentStep(c: Crypto, key: Hash, val: Hash, o: Opened, level: nat, commit: Scalar, values: seq<Scalar>,
                       base: nat)
    requires Consistent(c, key, val, o, level, base + 1) && base < level <= ACCOUNT_SIZE
    requires |values| == BRANCH_ORDER && commit == Commit(c, values) && values[key[base]] == c.hash(o.cs[|o.cs| - 1])
    ensures Consistent(c, key, val, Opened(Ok, o.fxs + [values], o.cs + [commit]), level, base)
  {
    var o' := Opened(Ok, o.fxs + [values], o.cs + [commit]);
    hide Commit, ToScalar;
    forall k | 0 <= k < |o'.cs| ensures ConsistentAt(c, key, val, o', level, k) {
      if k < |o.cs| {
        assert ConsistentAt(c, key, val, o, level, k);
        assert FxOf(o'.fxs, k) == FxOf(o.fxs, k) && o'.cs[k] == o.cs[k];
        assert k >= 1 ==> o'.cs[k - 1] == o.cs[k - 1];
      } else {
        assert FxOf(o'.fxs, k) == values && level + 1 - k == base;
      }
    }
  }

  /** What a finished branch gives on the way to a key. */
  lemma BranchOpens(c: Crypto, st: Store, id: NodeId, key: Hash)
    requires id in st && st[id].Branch? && NodeOk(st, id, st[id]) && Sealed(c, st, id) && id.path <= key
    requires OpenPath(st, id, key).code == Ok
    ensures var cs, nib := st[id].children, key[|id.path|];
            && |id.path| < PATH_SIZE && Next(cs, nib).Some?
            && var child := Below(id, nib, Next(cs, nib).value);
               && child in st && Sealed(c, st, child) && child.path <= key
               && var o := OpenPath(st, child, key);
                  && o.code == Ok
                  && OpenPath(st, id, key) == Opened(Ok, o.fxs + [BranchValues(cs)], o.cs + [st[id].commit])
                  && BranchValues(cs)[nib] == c.hash(st[child].commit)
                  && st[id].commit == Commit(c, BranchValues(cs))
                  && Lookup(st, id, key) == Lookup(st, child, key)
  {
    var cs, nib := st[id].children, key[|id.path|];
    hide Commit, LeafValues, OpenPath, Lookup;
    OpenStep(st, id, key);
    LookupStep(st, id, key);
    PrefixStep(id.path, key);
    var n := NextMember(cs, nib);
    MemberIsEntry(cs, n);
    assert SealedChild(c, st, id, cs[n]);
  }

  lemma OpenStep(st: Store, id: NodeId, key: Hash)
    requires id in st && |id.path| < ACCOUNT_SIZE && st[id].Branch? && OpenPath(st, id, key).code == Ok
    ensures var cs, nib := st[id].children, key[|id.path|];
            && Next(cs, nib).Some?
            && var o := OpenPath(st, Below(id, nib, Next(cs, nib).value), key);
               && o.code == Ok
               && OpenPath(st, id, key) == Opened(Ok, o.fxs + [BranchValues(cs)], o.cs + [st[id].commit])
  {
    hide Next, BranchValues, LeafValues;
  }

  lemma {:induction false} PathConsistent(c: Crypto, st: Store, id: NodeId, key: Hash)
    requires Good(st) && Sealed(c, st, id) && id.path <= key && OpenPath(st, id, key).code == Ok
    ensures var slots, o := Lookup(st, id, key), OpenPath(st, id, key);
            && slots.Some? && key[ACCOUNT_SIZE] < |slots.value|
            && o.fxs != [] && |o.cs| == |o.fxs| + 1 && o.cs[|o.cs| - 1] == st[id].commit
            && |id.path| + |o.fxs| - 1 <= PATH_SIZE
            && Consistent(c, key, slots.value[key[ACCOUNT_SIZE]], o, |id.path| + |o.fxs| - 1, |id.path|)
    decreases ACCOUNT_SIZE - |id.path|
  {
    assert NodeOk(st, id, st[id]);
    if st[id].Leaf? {
      LeafConsistent(c, st, id, key);
    } else {
      var nib := key[|id.path|];
      BranchOpens(c, st, id, key);
      hide Sealed, Good, NodeOk, Consistent, BranchValues, Commit, Next, Lookup, OpenPath;
      var child := Below(id, nib, Next(st[id].children, nib).value);
      var o := OpenPath(st, child, key);
      PathConsistent(c, st, child, key);
      var level := |child.path| + |o.fxs| - 1;
      var val := Lookup(st, child, key).value[key[ACCOUNT_SIZE]];
      ConsistentStep(c, key, val, o, level, st[id].commit, BranchValues(st[id].children), |id.path|);
    }
  }

  // ---------- proofs ----------

  /** The roots, their inverses and the secret for the 256 points of a node. */
  ghost predicate ValidCrypto(c: Crypto) {
    Primitive(c.w, 8) && Mul(c.w, c.v) == 1
  }

  /** The index opened in the k-th of n listed commitments. */
  function ZIndex(key: Hash, n: nat, k: nat): (z: Byte)
    requires k < n && (k >= 2 ==> n - 1 - k < 32)
  {
    if k == 0 then 0 else if k == 1 then key[ACCOUNT_SIZE] else key[n - 1 - k]
  }

  /** The opening of the k-th listed commitment, as prove_kzg makes it. */
  function PiOf(c: Crypto, fx: seq<Scalar>, z: nat): (p: Scalar) {
    Eval(Quotient(Interpolate(fx, c.v), Pow(c.w, z)), c.s)
  }

  /** Each listed commitment opens at its index to its claimed value. */
  lemma EachOpens(c: Crypto, key: Hash, val: Hash, o: Opened, k: nat)
    requires ValidCrypto(c) && o.fxs != [] && |o.fxs| <= PATH_SIZE + 1 && k <= |o.fxs|
    requires Consistent(c, key, val, o, |o.fxs| - 1, 0)
    ensures var z := ZIndex(key, |o.cs|, k);
            Opens(o.cs[k], Pow(c.w, z), YValue(c, key, val, o.cs, k), PiOf(c, FxOf(o.fxs, k), z), c.s)
  {
    assert ConsistentAt(c, key, val, o, |o.fxs| - 1, k);
    var z, fx := ZIndex(key, |o.cs|, k), FxOf(o.fxs, k);
    assert fx[z] == YValue(c, key, val, o.cs, k);
    hide Opens, YValue, ToScalar, Primitive, Interpolate, Eval, Pow, Quotient;
    assert Exp2(8) == 256 by { ExpEight(); }
    ProofOpens(fx, z, 8, c.w, c.v, c.s);
  }

  /** An opening is right for the value the vector has there, and for no other. */
  lemma OpensIff(c: Crypto, fx: seq<Scalar>, z: nat, y: Scalar)
    requires ValidCrypto(c) && |fx| == BRANCH_ORDER && z < BRANCH_ORDER
    ensures Opens(Commit(c, fx), Pow(c.w, z), y, PiOf(c, fx, z), c.s) <==> y == fx[z]
  {
    hide Primitive, Interpolate, Eval, Pow, Quotient, Exp2, Opens, Mul;
    ExpEight();
    ProofOpens(fx, z, 8, c.w, c.v, c.s);
    if Opens(Commit(c, fx), Pow(c.w, z), y, PiOf(c, fx, z), c.s) {
      OpensToOne(Commit(c, fx), Pow(c.w, z), y, fx[z], PiOf(c, fx, z), c.s);
    }
  }

  lemma {:induction false} OpenLast(st: Store, id: NodeId, key: Hash)
    requires OpenPath(st, id, key).code == Ok
    ensures var o := OpenPath(st, id, key);
            id in st && o.fxs != [] && |o.cs| == |o.fxs| + 1 && o.cs[|o.cs| - 1] == st[id].commit
    decreases ACCOUNT_SIZE - |id.path|
  {
    if st[id].Branch? {
      OpenStep(st, id, key);
      hide Next, BranchValues, OpenPath;
      OpenLast(st, Below(id, key[|id.path|], Next(st[id].children, key[|id.path|]).value), key);
    }
  }

  /** The top of a proof: the root's vector and commitment over the child's. */
  lemma TopParts(st: Store, b: BlockId, key: Hash)
    requires Good(st) && OpenPath(st, RootId(b), key).code == Ok
    ensures RootId(b) in st && st[RootId(b)].Branch? && Next(st[RootId(b)].children, key[0]).Some?
    ensures var root := st[RootId(b)];
            var child := NodeId([key[0]], Next(root.children, key[0]).value);
            var o := OpenPath(st, child, key);
            && child in st && |o.cs| >= 2 && o.cs[|o.cs| - 1] == st[child].commit
            && OpenPath(st, RootId(b), key).cs == o.cs + [root.commit]
  {
    assert NodeOk(st, RootId(b), st[RootId(b)]);
    var cs := st[RootId(b)].children;
    OpenStep(st, RootId(b), key);
    hide OpenPath, BranchValues, Next, Good, NodeOk;
    var child := Below(RootId(b), key[0], Next(cs, key[0]).value);
    assert child.path == [key[0]];
    OpenLast(st, child, key);
  }

  /** The proof opens at the root exactly if the root's entry holds the hash of its child's commitment. */
  lemma TopOpensIff(c: Crypto, st: Store, b: BlockId, key: Hash, val: Hash, root: Node, child: NodeId)
    requires ValidCrypto(c) && Good(st) && OpenPath(st, RootId(b), key).code == Ok && RootId(b) in st &&
             st[RootId(b)] == root
    requires root.Branch? && root.commit == Commit(c, BranchValues(root.children))
    requires child.path == [key[0]] && Next(root.children, key[0]) == Some(child.blk)
    ensures var cs := OpenPath(st, RootId(b), key).cs;
            && |cs| >= 3 && child in st
            && (Opens(cs[|cs| - 1], Pow(c.w, key[0]), YValue(c, key, val, cs, |cs| - 1),
                PiOf(c, BranchValues(root.children), key[0]), c.s)
                <==> ScalarAt(root.children, key[0]) == c.hash(st[child].commit))
  {
    TopParts(st, b, key);
    assert child == NodeId([key[0]], child.blk);
    assert BranchValues(root.children)[key[0]] == ScalarAt(root.children, key[0]);
    var o := OpenPath(st, child, key);
    hide *;
    OpensIff(c, BranchValues(root.children), key[0], c.hash(st[child].commit));
    TopValue(c, key, val, o.cs, root.commit);
  }

  /** If it does not, the proof fails: for any other challenges at most one value of the last one passes. */
  lemma StaleRejected(c: Crypto, st: Store, b: BlockId, key: Hash, val: Hash, root: Node, child: NodeId,
                      zs: seq<Scalar>, ys: seq<Scalar>, pis: seq<Scalar>, rs: seq<Scalar>, r: Scalar)
    requires ValidCrypto(c) && Good(st) && OpenPath(st, RootId(b), key).code == Ok && RootId(b) in st &&
             st[RootId(b)] == root
    requires root.Branch? && root.commit == Commit(c, BranchValues(root.children))
    requires child.path == [key[0]] && Next(root.children, key[0]) == Some(child.blk) && child in st
    requires ScalarAt(root.children, key[0]) != c.hash(st[child].commit)
    requires IsProof(c, key, val, OpenPath(st, RootId(b), key), zs, ys, pis) && |rs| == |pis| && r != rs[|rs| - 1]
    ensures var cs := OpenPath(st, RootId(b), key).cs;
            Weighted(pis, cs, zs, ys, rs, c.s, |pis|) != 0 ||
                Weighted(pis, cs, zs, ys, rs[|rs| - 1 := r], c.s, |pis|) != 0
  {
    var o, n := OpenPath(st, RootId(b), key), |pis| - 1;
    TopOpensIff(c, st, b, key, val, root, child);
    assert o.fxs[|o.fxs| - 1] == BranchValues(root.children) by {
      OpenStep(st, RootId(b), key);
      hide OpenPath, BranchValues, Next;
    }
    assert IsProofAt(c, key, val, o, zs[n], ys[n], pis[n], n);
    hide *;
    BatchHidesOnce(pis, o.cs, zs, ys, rs, c.s, n, r, |pis|);
  }

  lemma TopValue(c: Crypto, key: Hash, val: Hash, cs: seq<Scalar>, top: Scalar)
    requires |cs| >= 2
    ensures YValue(c, key, val, cs + [top], |cs|) == c.hash(cs[|cs| - 1])
  {
    hide ToScalar;
  }

  lemma ExpEight()
    ensures Exp2(8) == 256
  {
    assert Exp2(4) == 16;
    assert Exp2(6) == 64;
  }

  /** The lists the verifier works with: points, claimed values and openings, one per commitment. */
  ghost predicate IsProof(c: Crypto, key: Hash, val: Hash, o: Opened, zs: seq<Scalar>, ys: seq<Scalar>,
                          pis: seq<Scalar>) {
    && o.fxs != [] && |o.fxs| <= PATH_SIZE + 1
    && |zs| == |ys| == |pis| == |o.cs| == |o.fxs| + 1
    && forall k :: 0 <= k < |pis| ==> IsProofAt(c, key, val, o, zs[k], ys[k], pis[k], k)
  }

  predicate IsProofAt(c: Crypto, key: Hash, val: Hash, o: Opened, z: Scalar, y: Scalar, pi: Scalar, k: nat)
    requires o.fxs != [] && |o.fxs| <= PATH_SIZE + 1 && k < |o.cs| == |o.fxs| + 1
  {
    var idx := ZIndex(key, |o.cs|, k);
    z == Pow(c.w, idx) && y == YValue(c, key, val, o.cs, k) && pi == PiOf(c, FxOf(o.fxs, k), idx)
  }

  lemma ProofPasses(c: Crypto, key: Hash, val: Hash, o: Opened, zs: seq<Scalar>, ys: seq<Scalar>, pis: seq<Scalar>,
                    rs: seq<Scalar>)
    requires ValidCrypto(c) && IsProof(c, key, val, o, zs, ys, pis) && |rs| == |pis|
    requires Consistent(c, key, val, o, |o.fxs| - 1, 0)
    ensures Weighted(pis, o.cs, zs, ys, rs, c.s, |pis|) == 0
  {
    hide Consistent, Opens, PiOf, YValue, ZIndex, FxOf, Pow, Weighted, ValidCrypto;
    forall k | 0 <= k < |pis| ensures Opens(o.cs[k], zs[k], ys[k], pis[k], c.s) {
      assert IsProofAt(c, key, val, o, zs[k], ys[k], pis[k], k);
      EachOpens(c, key, val, o, k);
    }
    BatchComplete(pis, o.cs, zs, ys, rs, c.s, |pis|);
  }

  /** Main theorem: for a finished block and a slot that exists, the generated openings pass the
      batch check whatever the challenges are, up to the commitment of the block's own root. */
  lemma ExistenceComplete(c: Crypto, st: Store, b: BlockId, key: Hash, slots: seq<Hash>,
                          zs: seq<Scalar>, ys: seq<Scalar>, pis: seq<Scalar>, rs: seq<Scalar>)
    requires ValidCrypto(c) && Good(st) && Sealed(c, st, RootId(b))
    requires Lookup(st, RootId(b), key) == Some(slots) && key[ACCOUNT_SIZE] < |slots| &&
             slots[key[ACCOUNT_SIZE]] != ZERO_HASH
    requires IsProof(c, key, slots[key[ACCOUNT_SIZE]], OpenPath(st, RootId(b), key), zs, ys, pis) && |rs| == |pis|
    ensures OpenPath(st, RootId(b), key).code == Ok
    ensures Weighted(pis, OpenPath(st, RootId(b), key).cs, zs, ys, rs, c.s, |pis|) == 0
    ensures OpenPath(st, RootId(b), key).cs[|pis| - 1] == st[RootId(b)].commit
  {
    OpenPathResult(st, RootId(b), key);
    PathConsistent(c, st, RootId(b), key);
    hide Sealed, Good, OpenPath, Lookup, Consistent, Weighted, ValidCrypto;
    ProofPasses(c, key, slots[key[ACCOUNT_SIZE]], OpenPath(st, RootId(b), key), zs, ys, pis, rs);
  }

  lemma FinalGood(c: Crypto, st: Store, b: BlockId)
    requires NonzeroHash(c) && Good(st)
    ensures Good(FinalStore(c, st, [], b))
  {
    var st' := FinalStore(c, st, [], b);
    FinalStoreBetween(c, st, [], b);
    assert GoodBelow(st, []);
    GoodBetween(c, st, st', b, []);
    hide FinalStore, NodeOk;
    forall id | id in st' ensures NodeOk(st', id, st'[id]) {
      assert [] <= id.path;
    }
  }

  /** The same from the start: a block finalized on finished predecessors proves all its slots. */
  lemma FinalizedBlockProves(c: Crypto, st: Store, b: BlockId, key: Hash, slots: seq<Hash>,
                             zs: seq<Scalar>, ys: seq<Scalar>, pis: seq<Scalar>, rs: seq<Scalar>)
    requires ValidCrypto(c) && NonzeroHash(c) && Good(st) && Exclusive(st, b) && OthersSealed(c, st, RootId(b), b)
    requires Lookup(st, RootId(b), key) == Some(slots) && key[ACCOUNT_SIZE] < |slots| &&
             slots[key[ACCOUNT_SIZE]] != ZERO_HASH
    requires var st' := FinalStore(c, st, [], b);
             IsProof(c, key, slots[key[ACCOUNT_SIZE]], OpenPath(st', RootId(b), key), zs, ys, pis) && |rs| == |pis|
    ensures var o := OpenPath(FinalStore(c, st, [], b), RootId(b), key);
            o.code == Ok && Weighted(pis, o.cs, zs, ys, rs, c.s, |pis|) == 0
  {
    var st' := FinalStore(c, st, [], b);
    FinalizedIsSealed(c, st, RootId(b), b);
    FinalizeReads(c, st, b, RootId(b), key);
    FinalGood(c, st, b);
    hide FinalStore, Sealed, Good, OpenPath, Lookup, IsProof, Weighted, OthersSealed, Exclusive;
    ExistenceComplete(c, st', b, key, slots, zs, ys, pis, rs);
  }
}

/** generate_proof, derive_Zs_n_Ys and valid_proof (processing.cpp:144-310). */
module ProofChecks {
  import opened Options
  import opened Scalars
  import opened Polynomials
  import opened InverseFft
  import opened Kzg
  import opened TrieTypes
  import opened Trie
  import opened Finalizing
  import opened LedgerSpec
  import opened ExistenceProofs

  /** The split map holds eight bits; asking for another one throws. */
  const SPLIT_BITS: nat := 8

  /** generate_proof after the nodes were collected. No split map bit is ever set, so the byte for a
      commitment is found by its distance from the leaf. None where the split map throws. */
  method GenerateProof(fxs: seq<seq<Scalar>>, key: Hash, k: Settings, ghost c: Crypto) returns (r: Option<seq<Scalar>>)
    requires ValidSettings(k, 8, c.w, c.v, c.s) && fxs != []
    requires forall i :: 0 <= i < |fxs| ==> |fxs[i]| == BRANCH_ORDER
    ensures r.Some? <==> |fxs| <= SPLIT_BITS
    ensures r.Some? ==> |r.value| == |fxs| + 1
    ensures r.Some? ==> forall j :: 0 <= j < |r.value| ==>
            r.value[j] == PiOf(c, FxOf(fxs, j), ZIndex(key, |fxs| + 1, j))
  {
    hide ValidSettings, Eval, Quotient, Interpolate, Pow;
    ExpEight();
    var n := |fxs|;
    if n - 1 >= SPLIT_BITS {
      return None;
    }
    var first := ProveKzg(fxs[0], 0, k, 8, c.w, c.v, c.s);
    var pis := [first.value];
    for i := 0 to n
      invariant |pis| == i + 1
      invariant forall j :: 0 <= j <= i ==> pis[j] == PiOf(c, FxOf(fxs, j), ZIndex(key, n + 1, j))
    {
      var keyIdx := n - 1 - i;
      var nib := if i == 0 then key[ACCOUNT_SIZE] else key[keyIdx];
      var p := ProveKzg(fxs[i], nib, k, 8, c.w, c.v, c.s);
      pis := pis + [p.value];
    }
    return Some(pis);
  }

  /** derive_Zs_n_Ys: what the verifier opens where, from the key, the value and the commitments. None
      where the split map throws. */
  method DeriveZsYs(key: Hash, val: Hash, cs: seq<Scalar>, c: Crypto) returns (r: Option<(seq<nat>, seq<Scalar>)>)
    ensures r.Some? <==> |cs| <= SPLIT_BITS + 2
    ensures r.Some? ==> |r.value.0| == |r.value.1| == |cs|
    ensures r.Some? ==> forall k :: 0 <= k < |cs| ==>
              r.value.0[k] == ZIndex(key, |cs|, k) && r.value.1[k] == YValue(c, key, val, cs, k)
  {
    hide ToScalar;
    var n := |cs|;
    var zs: seq<nat>, ys: seq<Scalar> := [], [];
    for k := 0 to n
      invariant |zs| == |ys| == k && (k > 2 ==> n <= SPLIT_BITS + 2)
      invariant n <= SPLIT_BITS + 2 ==>
                  forall j :: 0 <= j < k ==> zs[j] == ZIndex(key, n, j) && ys[j] == YValue(c, key, val, cs, j)
    {
      if k == 0 {
        zs, ys := zs + [0], ys + [ToScalar(key[ACCOUNT_SIZE := 0])];
      } else if k == 1 {
        zs, ys := zs + [key[ACCOUNT_SIZE]], ys + [ToScalar(val)];
      } else {
        var i := n - 1 - k;
        if i >= SPLIT_BITS {
          return None;
        }
        zs, ys := zs + [key[i]], ys + [c.hash(cs[k - 1])];
      }
    }
    return Some((zs, ys));
  }

  /** commit_is_in_path: some node on the way to the key has the commitment. The error code of a child
      that cannot be loaded counts as true. */
  predicate CommitInPath(st: Store, id: NodeId, key: Hash, commitment: Scalar)
    decreases ACCOUNT_SIZE - |id.path|
  {
    if id !in st || |id.path| >= ACCOUNT_SIZE then true
    else if st[id].commit == commitment then true
    else if st[id].Leaf? then false
    else
      match Next(st[id].children, key[|id.path|])
      case None => false
      case Some(b) => CommitInPath(st, Below(id, key[|id.path|], b), key, commitment)
  }

  /** The points and values the verifier derives. */
  function PointsOf(c: Crypto, key: Hash, n: nat): (zs: seq<Scalar>)
    requires n <= SPLIT_BITS + 2
    ensures |zs| == n && forall j :: 0 <= j < n ==> zs[j] == Pow(c.w, ZIndex(key, n, j))
  {
    seq(n, j requires 0 <= j < n => Pow(c.w, ZIndex(key, n, j)))
  }

  function ValuesOf(c: Crypto, key: Hash, val: Hash, cs: seq<Scalar>): (ys: seq<Scalar>)
    ensures |ys| == |cs| && forall j :: 0 <= j < |cs| ==> ys[j] == YValue(c, key, val, cs, j)
  {
    seq(|cs|, j requires 0 <= j < |cs| => YValue(c, key, val, cs, j))
  }

  /** valid_proof, with the hashed challenges as given; a block that is not there is opened. None where the
      split map throws. */
  method ValidProof(st: Store, b: BlockId, key: Hash, val: Hash, cs: seq<Scalar>, pis: seq<Scalar>, rs: seq<Scalar>,
                    k: Settings, c: Crypto)
    returns (ok: Option<bool>)
    requires ValidSettings(k, 8, c.w, c.v, c.s)
    requires |pis| == |rs| == |cs| && cs != []
    ensures ok.Some? <==> |cs| <= SPLIT_BITS + 2
    ensures ok.Some? ==>
              (ok.value <==>
                && CommitInPath(GetRoot(st, b, CANONICAL), RootId(b), key, cs[|cs| - 1])
                && 0 !in rs
                && Weighted(pis, cs, PointsOf(c, key, |cs|), ValuesOf(c, key, val, cs), rs, c.s, |pis|) == 0)
  {
    hide Pow, Weighted, CommitInPath, YValue, ZIndex, GetRoot;
    ExpEight();
    var derived := DeriveZsYs(key, val, cs, c);
    if derived.None? {
      return None;
    }
    var (zIdxs, ys) := derived.value;
    assert ys == ValuesOf(c, key, val, cs);
    if !CommitInPath(GetRoot(st, b, CANONICAL), RootId(b), key, cs[|cs| - 1]) {
      return Some(false);
    }
    var good := BatchVerify(pis, cs, zIdxs, ys, rs, k, PointsOf(c, key, |cs|), c.s);
    return Some(good);
  }

  /** The two halves meet: the openings of a finished block are accepted for every value it holds,
      and for all nonzero challenges, if the leaf is no deeper than level 7. */
  method ProveAndCheck(st: Store, b: BlockId, key: Hash, slots: seq<Hash>, rs: seq<Scalar>, k: Settings, c: Crypto)
    returns (accepted: bool)
    requires ValidSettings(k, 8, c.w, c.v, c.s) && Good(st) && Sealed(c, st, RootId(b))
    requires Lookup(st, RootId(b), key) == Some(slots)
    requires key[ACCOUNT_SIZE] < |slots| && slots[key[ACCOUNT_SIZE]] != ZERO_HASH
    requires |OpenPath(st, RootId(b), key).fxs| - 1 <= 7
    requires |rs| == |OpenPath(st, RootId(b), key).cs|
    ensures accepted <==> 0 !in rs
  {
    var o := OpenPath(st, RootId(b), key);
    var val := slots[key[ACCOUNT_SIZE]];
    ReadyToProve(st, b, key, slots, c);
    SettingsCrypto(k, c);
    hide Good, Sealed, Lookup, OpenPath, ValidSettings, Weighted, CommitInPath, PiOf, YValue, ZIndex;
    var pis := GenerateProof(o.fxs, key, k, c);
    var ok := ValidProof(st, b, key, val, o.cs, pis.value, rs, k, c);
    accepted := ok.value;
    ghost var zs, ys := PointsOf(c, key, |o.cs|), ValuesOf(c, key, val, o.cs);
    assert IsProof(c, key, val, o, zs, ys, pis.value);
    ExistenceComplete(c, st, b, key, slots, zs, ys, pis.value, rs);
  }

  lemma RootInPath(st: Store, b: BlockId, key: Hash)
    requires RootId(b) in st
    ensures CommitInPath(st, RootId(b), key, st[RootId(b)].commit)
  {
  }

  lemma ReadyToProve(st: Store, b: BlockId, key: Hash, slots: seq<Hash>, c: Crypto)
    requires Good(st) && Sealed(c, st, RootId(b)) && Lookup(st, RootId(b), key) == Some(slots)
    requires key[ACCOUNT_SIZE] < |slots| && slots[key[ACCOUNT_SIZE]] != ZERO_HASH
    ensures var o := OpenPath(st, RootId(b), key);
            && o.fxs != [] && |o.cs| == |o.fxs| + 1
            && (forall i :: 0 <= i < |o.fxs| ==> |o.fxs[i]| == BRANCH_ORDER)
            && RootId(b) in st && CommitInPath(st, RootId(b), key, st[RootId(b)].commit)
  {
    var o := OpenPath(st, RootId(b), key);
    var val := slots[key[ACCOUNT_SIZE]];
    OpenPathResult(st, RootId(b), key);
    PathConsistent(c, st, RootId(b), key);
    RootInPath(st, b, key);
    hide Good, Sealed, OpenPath, CommitInPath, Lookup, YValue, Commit;
    forall i | 0 <= i < |o.fxs| ensures |o.fxs[i]| == BRANCH_ORDER {
      assert ConsistentAt(c, key, val, o, |o.fxs| - 1, i + 1);
    }
  }

  lemma SettingsCrypto(k: Settings, c: Crypto)
    requires ValidSettings(k, 8, c.w, c.v, c.s)
    ensures ValidCrypto(c)
  {
  }
}

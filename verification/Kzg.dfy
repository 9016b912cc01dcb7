/** Commitments, openings and their verification (kzg.cpp, polynomial.cpp:26-40).

    A group element is represented by its discrete logarithm: the generators of G1 and G2 are 1,
    adding points is adding scalars, multiplying a point by a scalar is multiplying, and a pairing
    equation e(a, b) = e(c, d) is a * b = c * d.
 */
module Kzg {
  import opened Options
  import opened Scalars
  import opened Polynomials
  import opened BitReversal
  import opened Fft
  import opened InverseFft
  import opened Quotients
  import opened QuotientProof

  /** NTTRoots and SRS: the domain, its inverses, and the powers of the secret in both groups. */
  datatype Settings = Settings(roots: seq<Scalar>, invRoots: seq<Scalar>, g1: seq<Scalar>, g2: seq<Scalar>)

  ghost predicate PowersOf(g: seq<Scalar>, s: Scalar) {
    forall k :: 0 <= k < |g| ==> g[k] == Pow(s, k)
  }

  /** Settings for 2^m points, made from the root w, its inverse v and the secret s. */
  ghost predicate ValidSettings(k: Settings, m: nat, w: Scalar, v: Scalar, s: Scalar) {
    && IsDomain(k.roots, w, m)
    && IsDomain(k.invRoots, v, m)
    && Mul(w, v) == 1
    && |k.g1| == |k.g2| == Exp2(m)
    && PowersOf(k.g1, s)
    && PowersOf(k.g2, s)
  }

  /** commit_g1: the polynomial evaluated at the secret, from the powers alone. */
  method CommitG1(coeffs: seq<Scalar>, g1: seq<Scalar>, ghost s: Scalar) returns (c: Scalar)
    requires |coeffs| <= |g1| && PowersOf(g1, s)
    ensures c == Eval(coeffs, s)
  {
    hide Add, Mul, Sub, Eval, Pow;
    c := 0;
    assert coeffs[..0] == [];
    EmptyEval(s);
    for i := 0 to |coeffs|
      invariant c == Eval(coeffs[..i], s)
    {
      var tmp := Mul(g1[i], coeffs[i]);
      assert coeffs[..i + 1] == coeffs[..i] + [coeffs[i]];
      EvalAppend(coeffs[..i], [coeffs[i]], s);
      SingleEval(coeffs[i], s);
      c := Add(c, tmp);
    }
    assert coeffs[..|coeffs|] == coeffs;
  }

  /** What a node commits to: the secret value of the polynomial through the given values. */
  function Commitment(evals: seq<Scalar>, v: Scalar, s: Scalar): (c: Scalar) {
    Eval(Interpolate(evals, v), s)
  }

  method CommitValues(evals: seq<Scalar>, k: Settings, ghost m: nat, ghost w: Scalar, ghost v: Scalar, ghost s: Scalar)
    returns (c: Scalar)
    requires ValidSettings(k, m, w, v, s) && |evals| == Exp2(m)
    ensures c == Commitment(evals, v, s)
  {
    hide Add, Mul, Sub, Eval, Pow, Interpolate, Primitive, Exp2;
    var a := new Scalar[|evals|](i requires 0 <= i < |evals| => evals[i]);
    assert a[..] == evals;
    InverseFftInPlace(a, k.invRoots, m, v);
    c := CommitG1(a[..], k.g1, s);
  }

  /** prove_kzg: the secret value of (f - f(z)) / (X - z), for the root z with the given index. */
  method ProveKzg(evals: seq<Scalar>, idx: nat, k: Settings, ghost m: nat, ghost w: Scalar, ghost v: Scalar,
                  ghost s: Scalar)
    returns (r: Option<Scalar>)
    requires ValidSettings(k, m, w, v, s) && |evals| == Exp2(m) && idx < |evals|
    ensures r == Some(Eval(Quotient(Interpolate(evals, v), Pow(w, idx)), s))
  {
    hide Add, Mul, Sub, Eval, Pow, Interpolate, Primitive, Exp2, Dft, QuotientValues;
    var z := k.roots[idx];
    var y := evals[idx];
    ghost var f := Interpolate(evals, v);
    DftInterpolate(evals, w, v, m);
    DftAt(f, w, idx);
    DomainNotDegenerate(k.roots, w, m, z);
    var q := DeriveQuotient(evals, z, y, k.roots);
    if q.None? {
      return None;
    }
    ghost var h := Quotient(f, z) + [0];
    QuotientCorrect(f, k.roots, w, m, z, q.value);
    assert |h| == |f|;
    InterpolateDft(h, w, v, m);
    var p := CommitValues(q.value, k, m, w, v, s);
    PadEval(Quotient(f, z), s);
    return Some(p);
  }

  /** A correct opening of the commitment c at z to the value y. */
  predicate Opens(c: Scalar, z: Scalar, y: Scalar, pi: Scalar, s: Scalar) {
    Sub(c, y) == Mul(Sub(s, z), pi)
  }

  /** A commitment opens at a point to one value only, with the same opening. */
  lemma OpensToOne(c: Scalar, z: Scalar, y: Scalar, y': Scalar, pi: Scalar, s: Scalar)
    requires Opens(c, z, y, pi, s) && Opens(c, z, y', pi, s)
    ensures y == y'
  {
    hide Add, Mul, Sub;
    var d := Sub(c, y);
    SubAdd(c, y);
    SubAdd(c, y');
    AddComm(d, y);
    AddComm(d, y');
    AddCancel(y, y', d);
  }

  /** verify_kzg: e(C - [y] + z * Pi, g2) = e(Pi, [s]) holds exactly for correct openings. */
  method VerifyKzg(c: Scalar, z: Scalar, y: Scalar, pi: Scalar, g2: seq<Scalar>, ghost s: Scalar) returns (ok: bool)
    requires |g2| >= 2 && PowersOf(g2, s)
    ensures ok <==> Opens(c, z, y, pi, s)
  {
    hide Add, Mul, Sub, Pow;
    var tmp := Sub(0, Mul(1, y));
    var acc := Add(c, tmp);
    tmp := Mul(pi, z);
    acc := Add(acc, tmp);
    var lhs := Mul(g2[0], acc);
    var rhs := Mul(g2[1], pi);
    PowZero(s);
    PowTwo(s);
    MulOne(y);
    MulOne(acc);
    AddNeg(c, y);
    OpeningEquation(Sub(c, y), s, z, pi);
    return lhs == rhs;
  }

  lemma PowZero(s: Scalar)
    ensures Pow(s, 0) == 1
  {
  }

  /** d + pi * z = s * pi  <=>  d = (s - z) * pi */
  lemma OpeningEquation(d: Scalar, s: Scalar, z: Scalar, pi: Scalar)
    ensures Add(d, Mul(pi, z)) == Mul(s, pi) <==> d == Mul(Sub(s, z), pi)
  {
    hide Add, Mul, Sub;
    MulComm(pi, z);
    DistributeRight(Sub(s, z), z, pi);
    SubAdd(s, z);
    if Add(d, Mul(z, pi)) == Mul(s, pi) {
      AddCancel(d, Mul(Sub(s, z), pi), Mul(z, pi));
    }
  }

  /** Completeness: what prove_kzg returns opens the commitment to the same values. */
  lemma ProofOpens(evals: seq<Scalar>, idx: nat, m: nat, w: Scalar, v: Scalar, s: Scalar)
    requires |evals| == Exp2(m) && idx < |evals| && Primitive(w, m) && Mul(w, v) == 1
    ensures Opens(Commitment(evals, v, s), Pow(w, idx), evals[idx],
                  Eval(Quotient(Interpolate(evals, v), Pow(w, idx)), s), s)
  {
    hide Add, Mul, Sub, Eval, Pow, Interpolate, Primitive, Exp2, Dft;
    var f := Interpolate(evals, v);
    DftInterpolate(evals, w, v, m);
    DftAt(f, w, idx);
    QuotientDivides(f, Pow(w, idx), s);
  }

  // ---------- batches ----------

  /** How far an opening is from correct: (s - z) * pi - (c - y). */
  function Defect(c: Scalar, z: Scalar, y: Scalar, pi: Scalar, s: Scalar): (d: Scalar) {
    Sub(Mul(Sub(s, z), pi), Sub(c, y))
  }

  /** The defects of the first k openings, each weighted by its challenge. */
  function Weighted(pis: seq<Scalar>, cs: seq<Scalar>, zs: seq<Scalar>, ys: seq<Scalar>, rs: seq<Scalar>, s: Scalar,
                    k: nat): (d: Scalar)
    requires k <= |pis| == |cs| == |zs| == |ys| == |rs|
  {
    if k == 0 then 0
    else Add(Weighted(pis, cs, zs, ys, rs, s, k - 1),
             Mul(rs[k - 1], Defect(cs[k - 1], zs[k - 1], ys[k - 1], pis[k - 1], s)))
  }

  /** batch_verify, with the hashed challenges rs as given: it accepts exactly when no challenge is
      zero and the weighted defects cancel. */
  method BatchVerify(pis: seq<Scalar>, cs: seq<Scalar>, zIdxs: seq<nat>, ys: seq<Scalar>, rs: seq<Scalar>, k: Settings,
                     ghost zs: seq<Scalar>, ghost s: Scalar)
    returns (ok: bool)
    requires |pis| == |cs| == |zIdxs| == |ys| == |rs| == |zs|
    requires forall i :: 0 <= i < |zs| ==> zIdxs[i] < |k.roots| && zs[i] == k.roots[zIdxs[i]]
    requires |k.g2| >= 2 && PowersOf(k.g2, s)
    ensures ok <==> 0 !in rs && Weighted(pis, cs, zs, ys, rs, s, |pis|) == 0
  {
    hide Add, Mul, Sub, Pow, Weighted, Defect;
    PowZero(s);
    PowTwo(s);
    var left: Scalar, right: Scalar := 0, 0;
    WeightedStart(pis, cs, zs, ys, rs, s);
    for i := 0 to |pis|
      invariant Sub(Mul(s, left), right) == Weighted(pis, cs, zs, ys, rs, s, i)
      invariant 0 !in rs[..i]
    {
      var z := k.roots[zIdxs[i]];
      var r := rs[i];
      if r == 0 {
        return false;
      }
      var tmp := Sub(0, Mul(1, ys[i]));
      tmp := Add(tmp, cs[i]);
      tmp := Mul(tmp, r);
      ghost var left0, right0 := left, right;
      right := Add(right, tmp);
      tmp := Mul(pis[i], r);
      left := Add(left, tmp);
      tmp := Mul(tmp, z);
      right := Add(right, tmp);
      assert rs[..i + 1] == rs[..i] + [r];
      WeightedNext(pis, cs, zs, ys, rs, s, i);
      AggregateStep(cs[i], z, ys[i], pis[i], r, s, left0, right0);
    }
    assert rs[..|rs|] == rs;
    var lhs := Mul(k.g2[1], left);
    var rhs := Mul(k.g2[0], right);
    MulOne(right);
    SubZero(Mul(s, left), right);
    return lhs == rhs;
  }

  lemma WeightedStart(pis: seq<Scalar>, cs: seq<Scalar>, zs: seq<Scalar>, ys: seq<Scalar>, rs: seq<Scalar>, s: Scalar)
    requires |pis| == |cs| == |zs| == |ys| == |rs|
    ensures Weighted(pis, cs, zs, ys, rs, s, 0) == 0 && Sub(Mul(s, 0), 0) == 0
  {
    hide Add, Mul, Sub;
    MulZero(s);
    AddZero(0);
  }

  lemma WeightedNext(pis: seq<Scalar>, cs: seq<Scalar>, zs: seq<Scalar>, ys: seq<Scalar>, rs: seq<Scalar>, s: Scalar,
                     i: nat)
    requires i < |pis| == |cs| == |zs| == |ys| == |rs|
    ensures Weighted(pis, cs, zs, ys, rs, s, i + 1)
         == Add(Weighted(pis, cs, zs, ys, rs, s, i), Mul(rs[i], Defect(cs[i], zs[i], ys[i], pis[i], s)))
  {
    hide Add, Mul, Sub, Defect;
  }

  /** s * left - right grows by r * ((s - z) * pi - (c - y)). */
  lemma AggregateStep(c: Scalar, z: Scalar, y: Scalar, pi: Scalar, r: Scalar, s: Scalar, left: Scalar, right: Scalar)
    ensures Sub(Mul(s, Add(left, Mul(pi, r))), Add(Add(right, Mul(Add(Sub(0, Mul(1, y)), c), r)), Mul(Mul(pi, r), z)))
         == Add(Sub(Mul(s, left), right), Mul(r, Defect(c, z, y, pi, s)))
  {
    hide Add, Mul, Sub;
    var d, e, t := Sub(c, y), Sub(s, z), Mul(pi, r);
    MulOne(y);
    AddNeg(c, y);
    AddComm(Sub(0, y), c);
    MulComm(d, r);
    // r * defect = e * t - r * d, and s * t = e * t + z * t
    MulSub(r, Mul(e, pi), d);
    ShuffleProduct(r, e, pi);
    MulComm(r, pi);
    SubAdd(s, z);
    DistributeRight(e, z, t);
    MulComm(t, z);
    MulAdd(s, left, t);
    AggregateSum(Mul(s, left), right, Mul(e, t), Mul(z, t), Mul(r, d));
  }

  lemma AggregateSum(a: Scalar, b: Scalar, p: Scalar, q: Scalar, d: Scalar)
    ensures Sub(Add(a, Add(p, q)), Add(Add(b, d), q)) == Add(Sub(a, b), Sub(p, d))
  {
    hide Add, Mul, Sub;
    var x, y := Sub(a, b), Sub(p, d);
    SubAdd(a, b);
    SubAdd(p, d);
    AddAssoc(Add(x, y), Add(b, d), q);
    AddSwap(x, y, b, d);
    AddAssoc(a, p, q);
    SubUnique(Add(a, Add(p, q)), Add(Add(b, d), q), Add(x, y));
  }

  lemma DefectZero(c: Scalar, z: Scalar, y: Scalar, pi: Scalar, s: Scalar)
    ensures Defect(c, z, y, pi, s) == 0 <==> Opens(c, z, y, pi, s)
  {
    hide Add, Mul, Sub;
    SubZero(Mul(Sub(s, z), pi), Sub(c, y));
  }

  /** Correct openings pass whatever the challenges are. */
  lemma {:induction false} BatchComplete(pis: seq<Scalar>, cs: seq<Scalar>, zs: seq<Scalar>, ys: seq<Scalar>,
                                         rs: seq<Scalar>, s: Scalar, k: nat)
    requires k <= |pis| == |cs| == |zs| == |ys| == |rs|
    requires forall i :: 0 <= i < k ==> Opens(cs[i], zs[i], ys[i], pis[i], s)
    ensures Weighted(pis, cs, zs, ys, rs, s, k) == 0
  {
    hide Add, Mul, Sub, Opens, Defect;
    if k > 0 {
      BatchComplete(pis, cs, zs, ys, rs, s, k - 1);
      DefectZero(cs[k - 1], zs[k - 1], ys[k - 1], pis[k - 1], s);
      MulZero(rs[k - 1]);
      AddZero(0);
    }
  }

  /** A single wrong opening, with a nonzero challenge, is never hidden by correct ones. */
  lemma {:induction false} BatchDetectsOne(pis: seq<Scalar>, cs: seq<Scalar>, zs: seq<Scalar>, ys: seq<Scalar>,
                                           rs: seq<Scalar>, s: Scalar, bad: nat, k: nat)
    requires bad < k <= |pis| == |cs| == |zs| == |ys| == |rs|
    requires forall i :: 0 <= i < k && i != bad ==> Opens(cs[i], zs[i], ys[i], pis[i], s)
    requires !Opens(cs[bad], zs[bad], ys[bad], pis[bad], s) && rs[bad] != 0
    ensures Weighted(pis, cs, zs, ys, rs, s, k) != 0
  {
    hide Add, Mul, Sub, Opens, Defect;
    var i := k - 1;
    var d := Defect(cs[i], zs[i], ys[i], pis[i], s);
    DefectZero(cs[i], zs[i], ys[i], pis[i], s);
    if i == bad {
      BatchComplete(pis, cs, zs, ys, rs, s, i);
      MulNonZero(rs[i], d);
      AddZero(Mul(rs[i], d));
    } else {
      BatchDetectsOne(pis, cs, zs, ys, rs, s, bad, i);
      MulZero(rs[i]);
      AddZero(Weighted(pis, cs, zs, ys, rs, s, i));
    }
  }

  lemma {:induction false} WeightedSame(pis: seq<Scalar>, cs: seq<Scalar>, zs: seq<Scalar>, ys: seq<Scalar>,
                                        rs: seq<Scalar>, rs': seq<Scalar>, s: Scalar, k: nat)
    requires k <= |pis| == |cs| == |zs| == |ys| == |rs| == |rs'| && rs[..k] == rs'[..k]
    ensures Weighted(pis, cs, zs, ys, rs, s, k) == Weighted(pis, cs, zs, ys, rs', s, k)
  {
    hide Add, Mul, Sub, Defect;
    if k > 0 {
      assert rs[..k][..k - 1] == rs[..k - 1] && rs'[..k][..k - 1] == rs'[..k - 1];
      assert rs[k - 1] == rs[..k][k - 1] == rs'[..k][k - 1] == rs'[k - 1];
      WeightedSame(pis, cs, zs, ys, rs, rs', s, k - 1);
    }
  }

  /** A wrong opening, whatever the others are: two values of its challenge never give the same sum, so at
      most one of them passes. */
  lemma {:induction false} BatchHidesOnce(pis: seq<Scalar>, cs: seq<Scalar>, zs: seq<Scalar>, ys: seq<Scalar>,
                                          rs: seq<Scalar>, s: Scalar, bad: nat, r: Scalar, k: nat)
    requires bad < k <= |pis| == |cs| == |zs| == |ys| == |rs|
    requires !Opens(cs[bad], zs[bad], ys[bad], pis[bad], s) && r != rs[bad]
    ensures Weighted(pis, cs, zs, ys, rs, s, k) != Weighted(pis, cs, zs, ys, rs[bad := r], s, k)
  {
    hide Add, Mul, Sub, Opens, Defect;
    var i, rs' := k - 1, rs[bad := r];
    var w, w' := Weighted(pis, cs, zs, ys, rs, s, i), Weighted(pis, cs, zs, ys, rs', s, i);
    var d := Defect(cs[i], zs[i], ys[i], pis[i], s);
    if i == bad {
      assert rs[..i] == rs'[..i];
      WeightedSame(pis, cs, zs, ys, rs, rs', s, i);
      DefectZero(cs[i], zs[i], ys[i], pis[i], s);
      Different(w, d, rs[bad], r);
    } else {
      BatchHidesOnce(pis, cs, zs, ys, rs, s, bad, r, i);
      if Add(w, Mul(rs[i], d)) == Add(w', Mul(rs[i], d)) {
        AddCancel(w, w', Mul(rs[i], d));
      }
    }
  }

  lemma Different(w: Scalar, d: Scalar, x: Scalar, y: Scalar)
    requires d != 0 && x != y
    ensures Add(w, Mul(x, d)) != Add(w, Mul(y, d))
  {
    hide Add, Mul, Sub;
    if Add(w, Mul(x, d)) == Add(w, Mul(y, d)) {
      AddComm(w, Mul(x, d));
      AddComm(w, Mul(y, d));
      AddCancel(Mul(x, d), Mul(y, d), w);
      MulComm(x, d);
      MulComm(y, d);
      MulCancel(x, y, d);
    }
  }
}

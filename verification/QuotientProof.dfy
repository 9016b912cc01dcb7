/** The values computed by derive_quotient are those of the polynomial (f - f(z)) / (X - z),
    the one at z itself included (polynomial.cpp:95-157).
 */
module QuotientProof {
  import opened Scalars
  import opened Polynomials
  import opened BitReversal
  import opened Fft
  import opened InverseFft
  import opened Quotients

  /** The powers of a primitive 2^m-th root, in order. */
  ghost predicate IsDomain(roots: seq<Scalar>, w: Scalar, m: nat) {
    && |roots| == Exp2(m)
    && Primitive(w, m)
    && forall k :: 0 <= k < |roots| ==> roots[k] == Pow(w, k)
  }

  // ---------- the roots are distinct ----------

  lemma {:induction false} NoSmallerPeriod(w: Scalar, m: nat, d: nat)
    requires Primitive(w, m) && 0 < d < Exp2(m)
    ensures Pow(w, d) != 1
    decreases m
  {
    hide Add, Mul, Sub;
    if d % 2 == 0 {
      PrimitiveSquare(w, m);
      NoSmallerPeriod(Mul(w, w), m - 1, d / 2);
      PowTwo(w);
      PowMul(w, 2, d / 2);
    } else {
      var h := Exp2(m - 1);
      PowMul(w, d, h);
      PowMul(w, h, d);
      Commute(d, h);
      SignPow(d);
      PowOne(h);
      OneIsNotMinusOne();
    }
  }

  lemma OneIsNotMinusOne()
    ensures Sub(0, 1) != 1
  {
    hide Add, Mul, Sub;
    SubAdd(0, 1);
    assert Add(1, 1) == 2 by { SmallSum(); }
  }

  lemma SmallSum()
    ensures Add(1, 1) == 2
  {
    ModSmall(P, 2);
  }

  lemma PowNonZero(w: Scalar, e: nat)
    requires w != 0
    ensures Pow(w, e) != 0
  {
    hide Add, Mul, Sub;
    if e > 0 {
      PowNonZero(w, e - 1);
      MulNonZero(w, Pow(w, e - 1));
    }
  }

  lemma PrimitiveNonZero(w: Scalar, m: nat)
    requires Primitive(w, m)
    ensures w != 0
  {
    hide Add, Mul, Sub;
    PrimitivePeriod(w, m);
    if w == 0 {
      MulZero(Pow(w, Exp2(m) - 1));
    }
  }

  lemma RootsDistinct(roots: seq<Scalar>, w: Scalar, m: nat, i: nat, j: nat)
    requires IsDomain(roots, w, m) && i < j < |roots|
    ensures roots[i] != roots[j] && roots[i] != 0
  {
    hide Add, Mul, Sub, Pow;
    PrimitiveNonZero(w, m);
    PowNonZero(w, i);
    PowAdd(w, i, j - i);
    NoSmallerPeriod(w, m, j - i);
    MulOne(Pow(w, i));
    if Pow(w, j) == Pow(w, i) {
      MulCancel(Pow(w, j - i), 1, Pow(w, i));
    }
  }

  /** derive_quotient never fails on a proper domain. */
  lemma DomainNotDegenerate(roots: seq<Scalar>, w: Scalar, m: nat, z: Scalar)
    requires IsDomain(roots, w, m)
    ensures !Degenerate(roots, z)
  {
    hide Pow, Primitive;
    forall i, j | 0 <= i < |roots| && 0 <= j < |roots| && i != j
      ensures roots[i] != roots[j] && roots[i] != 0
    {
      RootsDistinct(roots, w, m, if i < j then i else j, if i < j then j else i);
      PrimitiveNonZero(w, m);
      PowNonZero(w, i);
    }
  }

  // ---------- regular points ----------

  lemma RegularValue(f: seq<Scalar>, z: Scalar, x: Scalar)
    requires x != z
    ensures Regular(Eval(f, x), x, z, Eval(f, z)) == Eval(Quotient(f, z), x)
  {
    hide Add, Mul, Sub, Inv, Eval;
    var d, q := Sub(x, z), Eval(Quotient(f, z), x);
    QuotientDivides(f, z, x);
    SubZero(x, z);
    MulComm(d, q);
    MulAssoc(q, d, Inv(d));
    MulInv(d);
    MulOne(q);
  }

  // ---------- the removable point ----------

  /** z * share_i = - q(w_i) * w_i */
  lemma ShareValue(f: seq<Scalar>, z: Scalar, x: Scalar)
    requires x != z && z != 0
    ensures Add(Mul(z, Share(Eval(f, x), x, z, Eval(f, z))), Mul(x, Eval(Quotient(f, z), x))) == 0
  {
    hide Add, Mul, Sub, Inv, Eval;
    QuotientDivides(f, z, x);
    ShareIdentity(x, z, Eval(Quotient(f, z), x));
  }

  lemma ShareIdentity(x: Scalar, z: Scalar, q: Scalar)
    requires x != z && z != 0
    ensures Add(Mul(z, Mul(Mul(Mul(Sub(x, z), q), x), Inv(Mul(Sub(z, x), z)))), Mul(x, q)) == 0
  {
    hide Add, Mul, Sub, Inv;
    var d, e := Sub(x, z), Sub(z, x);
    var i := Inv(Mul(e, z));
    SubZero(z, x);
    MulNonZero(e, z);
    MulInv(Mul(e, z));
    // d = -e
    SubChain(x, z, x);
    AddZero(x);
    calc {
      Add(Mul(z, Mul(Mul(Mul(d, q), x), i)), Mul(x, q));
    ==  { Gather(z, d, q, x, i); }
      Add(Mul(Mul(Mul(d, z), i), Mul(x, q)), Mul(x, q));
    ==  { MulOne(Mul(x, q)); }
      Add(Mul(Mul(Mul(d, z), i), Mul(x, q)), Mul(Mul(Mul(e, z), i), Mul(x, q)));
    ==  { DistributeRight(Mul(Mul(d, z), i), Mul(Mul(e, z), i), Mul(x, q)); }
      Mul(Add(Mul(Mul(d, z), i), Mul(Mul(e, z), i)), Mul(x, q));
    ==  { DistributeRight(Mul(d, z), Mul(e, z), i); DistributeRight(d, e, z); }
      Mul(Mul(Mul(Add(d, e), z), i), Mul(x, q));
    ==  { MulZero(z); MulZero(i); MulZero(Mul(x, q)); }
      0;
    }
  }

  lemma Gather(z: Scalar, d: Scalar, q: Scalar, x: Scalar, i: Scalar)
    ensures Mul(z, Mul(Mul(Mul(d, q), x), i)) == Mul(Mul(Mul(d, z), i), Mul(x, q))
  {
    hide Add, Mul, Sub;
    calc {
      Mul(z, Mul(Mul(Mul(d, q), x), i));
    ==  { MulAssoc(d, q, x); MulComm(q, x); }
      Mul(z, Mul(Mul(d, Mul(x, q)), i));
    ==  { GatherAux(z, d, Mul(x, q), i); }
      Mul(Mul(Mul(d, z), i), Mul(x, q));
    }
  }

  lemma GatherAux(z: Scalar, d: Scalar, t: Scalar, i: Scalar)
    ensures Mul(z, Mul(Mul(d, t), i)) == Mul(Mul(Mul(d, z), i), t)
  {
    hide Add, Mul, Sub;
    MulAssoc(d, t, i);
    MulComm(t, i);
    MulAssoc(d, i, t);
    MulAssoc(z, Mul(d, i), t);
    MulAssoc(z, d, i);
    MulComm(z, d);
  }

  /** Up to k, z times the shares cancels the values q(w_i) * w_i, except the one at m. */
  lemma {:induction false} SharesBalance(f: seq<Scalar>, roots: seq<Scalar>, w: Scalar, e: nat, m: nat, k: nat)
    requires IsDomain(roots, w, e) && |f| == |roots| && m < |roots| && k <= |roots|
    ensures var z := roots[m];
            var g := Dft(Quotient(f, z) + [0], w);
            Add(Mul(z, Shares(Dft(f, w), roots, z, Eval(f, z), m, k)), Eval(g[..k], w))
            == if m < k then Mul(z, Eval(Quotient(f, z), z)) else 0
    decreases k
  {
    hide Add, Mul, Sub, Inv, Pow, Eval, Primitive;
    var z := roots[m];
    var q, g := Quotient(f, z), Dft(Quotient(f, z) + [0], w);
    if k == 0 {
      assert g[..0] == [];
      EmptyEval(w);
      MulZero(z);
      AddZero(0);
    } else {
      var i := k - 1;
      SharesBalance(f, roots, w, e, m, i);
      assert g[..k] == g[..i] + [g[i]];
      EvalAppend(g[..i], [g[i]], w);
      SingleEval(g[i], w);
      PadEval(q, roots[i]);
      var s, t := Shares(Dft(f, w), roots, z, Eval(f, z), m, i), Eval(g[..i], w);
      var u := Mul(roots[i], Eval(q, roots[i]));
      if i == m {
        AddAssoc(Mul(z, s), t, u);
        AddZero(u);
      } else {
        RootsDistinct(roots, w, e, if i < m then i else m, if i < m then m else i);
        DomainNonZero(roots, w, e, m);
        ShareValue(f, z, roots[i]);
        BalanceStep(z, s, t, Share(Eval(f, roots[i]), roots[i], z, Eval(f, z)), u);
      }
    }
  }

  lemma BalanceStep(z: Scalar, s: Scalar, t: Scalar, c: Scalar, u: Scalar)
    requires Add(Mul(z, c), u) == 0
    ensures Add(Mul(z, Add(s, c)), Add(t, u)) == Add(Mul(z, s), t)
  {
    hide Add, Mul, Sub;
    MulAdd(z, s, c);
    AddSwap(Mul(z, s), Mul(z, c), t, u);
    AddZero(Add(Mul(z, s), t));
  }

  lemma DomainNonZero(roots: seq<Scalar>, w: Scalar, e: nat, m: nat)
    requires IsDomain(roots, w, e) && m < |roots|
    ensures roots[m] != 0
  {
    PrimitiveNonZero(w, e);
    PowNonZero(w, m);
  }

  lemma EmptyEval(x: Scalar)
    ensures Eval([], x) == 0
  {
  }

  lemma SingleEval(c: Scalar, x: Scalar)
    ensures Eval([c], x) == c
  {
    hide Add, Mul, Sub;
    assert [c][1..] == [];
    MulZero(x);
    AddZero(c);
  }

  /** A zero top coefficient changes no value. */
  lemma PadEval(q: seq<Scalar>, x: Scalar)
    ensures Eval(q + [0], x) == Eval(q, x)
  {
    hide Add, Mul, Sub, Eval, Pow;
    EvalAppend(q, [0], x);
    SingleEval(0, x);
    MulZero(Pow(x, |q|));
    AddZero(Eval(q, x));
  }

  /** The values of a polynomial with zero top coefficient, weighted by the roots, add up to zero. */
  lemma TopCoefficient(g: seq<Scalar>, w: Scalar, m: nat)
    requires |g| == Exp2(m) && Primitive(w, m) && g[|g| - 1] == 0
    ensures Eval(Dft(g, w), w) == 0
  {
    hide Add, Mul, Sub, Eval, Pow, Inv;
    var v, n := Inv(w), |g|;
    PrimitiveNonZero(w, m);
    MulInv(w);
    DftTwice(g, w, v, m);
    assert Dft(Dft(g, w), v)[n - 1] == Mul(Num(n), 0);
    MulZero(Num(n));
    // v^(n-1) = w
    PrimitiveInverse(w, v, m);
    PrimitivePeriod(v, m);
    PowAdd(v, n - 1, 1);
    PowTwo(v);
    MulComm(Pow(v, n - 1), v);
    MulComm(w, v);
    MulZero(w);
    MulCancel(Pow(v, n - 1), w, v);
  }

  lemma SharesValue(f: seq<Scalar>, roots: seq<Scalar>, w: Scalar, e: nat, m: nat)
    requires IsDomain(roots, w, e) && |f| == |roots| && m < |roots|
    ensures var z := roots[m];
            Shares(Dft(f, w), roots, z, Eval(f, z), m, |f|) == Eval(Quotient(f, z), z)
  {
    hide Add, Mul, Sub, Eval, Pow, Inv, Shares, Primitive;
    var z, n := roots[m], |f|;
    var g := Quotient(f, z) + [0];
    SharesBalance(f, roots, w, e, m, n);
    assert Dft(g, w)[..n] == Dft(g, w);
    TopCoefficient(g, w, e);
    var s := Shares(Dft(f, w), roots, z, Eval(f, z), m, n);
    AddZero(Mul(z, s));
    DomainNonZero(roots, w, e, m);
    MulCancel(s, Eval(Quotient(f, z), z), z);
  }

  /** Main result: derive_quotient returns the transform of (f - f(z)) / (X - z). */
  lemma QuotientCorrect(f: seq<Scalar>, roots: seq<Scalar>, w: Scalar, m: nat, z: Scalar, q: seq<Scalar>)
    requires IsDomain(roots, w, m) && |f| == |roots|
    requires QuotientValues(q, Dft(f, w), z, Eval(f, z), roots)
    ensures q == Dft(Quotient(f, z) + [0], w)
  {
    hide Add, Mul, Sub, Eval, Pow, Inv, Shares, Primitive, Regular;
    var g := Quotient(f, z) + [0];
    forall i | 0 <= i < |q| ensures q[i] == Dft(g, w)[i] {
      PadEval(Quotient(f, z), roots[i]);
      if roots[i] == z {
        SharesValue(f, roots, w, m, i);
      } else {
        RegularValue(f, z, roots[i]);
      }
    }
  }

  /** No other vector of n coefficients has these values at the roots. */
  lemma TransformInjective(a: seq<Scalar>, b: seq<Scalar>, w: Scalar, m: nat)
    requires |a| == |b| == Exp2(m) && Primitive(w, m) && Dft(a, w) == Dft(b, w)
    ensures a == b
  {
    hide Add, Mul, Sub, Inv, Dft, Interpolate;
    PrimitiveNonZero(w, m);
    MulInv(w);
    InterpolateDft(a, w, Inv(w), m);
    InterpolateDft(b, w, Inv(w), m);
  }
}

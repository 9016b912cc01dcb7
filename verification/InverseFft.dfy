/** The inverse transform (fft.cpp:61-71): it undoes the forward one, in both orders. */
module InverseFft {
  import opened Scalars
  import opened Polynomials
  import opened BitReversal
  import opened Fft

  /** num_scalar: a small number as a scalar. */
  function Num(n: nat): (r: Scalar) {
    Mod(P, n)
  }

  lemma NumDouble(n: nat)
    ensures Num(2 * n) == Add(Num(n), Num(n))
  {
    hide Mod;
    ModAdd(P, n, Mod(P, n));
    ModAdd(P, n, n);
  }

  /** A power of two is not zero modulo an odd prime. */
  lemma {:induction false} NumExp2(m: nat)
    ensures Num(Exp2(m)) != 0
  {
    hide Mod, Add, Mul, Sub;
    if m == 0 {
      ModSmall(P, 1);
    } else {
      var x := Num(Exp2(m - 1));
      NumExp2(m - 1);
      NumDouble(Exp2(m - 1));
      TwoTimes(x);
      MulNonZero(2, x);
    }
  }

  lemma TwoTimes(x: Scalar)
    ensures Add(x, x) == Mul(2, x)
  {
    hide Mod;
  }

  /** Values at the inverse roots, divided by the length. */
  function Interpolate(e: seq<Scalar>, v: Scalar): (r: seq<Scalar>)
    ensures |r| == |e|
  {
    Scale(Inv(Num(|e|)), Dft(e, v))
  }

  // ---------- transforming twice ----------

  lemma DftTwiceEven(a: seq<Scalar>, w: Scalar, v: Scalar, m: nat, k: nat)
    requires |a| == Exp2(m) && m > 0 && k < Exp2(m - 1)
    requires Primitive(w, m) && Mul(w, v) == 1
    ensures var e := Dft(Evens(a), Mul(w, w));
            Eval(Dft(a, w), Pow(v, 2 * k)) == Add(Eval(e, Pow(Mul(v, v), k)), Eval(e, Pow(Mul(v, v), k)))
  {
    hide Add, Mul, Sub, Eval, Pow, Dft, Primitive;
    var h := Exp2(m - 1);
    var e, t := Dft(Evens(a), Mul(w, w)), Twist(Dft(Odds(a), Mul(w, w)), w);
    CombineDft(a, w, m);
    var x := Pow(v, 2 * k);
    PowTwo(v);
    PowMul(v, 2, k);
    RootHalf(w, v, m, 2 * k);
    EvalAppend(Plus(e, t), Minus(e, t), x);
    EvalPlus(e, t, x);
    EvalMinus(e, t, x);
    SumAndDifference(Eval(e, x), Eval(t, x));
  }

  lemma DftTwiceOdd(a: seq<Scalar>, w: Scalar, v: Scalar, m: nat, k: nat)
    requires |a| == Exp2(m) && m > 0 && k < Exp2(m - 1)
    requires Primitive(w, m) && Mul(w, v) == 1
    ensures var o := Dft(Odds(a), Mul(w, w));
            Eval(Dft(a, w), Pow(v, 2 * k + 1)) == Add(Eval(o, Pow(Mul(v, v), k)), Eval(o, Pow(Mul(v, v), k)))
  {
    hide Add, Mul, Sub, Eval, Pow, Dft, Primitive;
    var e, o := Dft(Evens(a), Mul(w, w)), Dft(Odds(a), Mul(w, w));
    var t := Twist(o, w);
    CombineDft(a, w, m);
    var x := Pow(v, 2 * k + 1);
    RootHalf(w, v, m, 2 * k + 1);
    EvalAppend(Plus(e, t), Minus(e, t), x);
    EvalPlus(e, t, x);
    EvalMinus(e, t, x);
    SumAndDifference(Eval(e, x), Eval(t, x));
    // w * v^(2k+1) = v^(2k)
    EvalTwist(o, w, x);
    PowAdd(v, 1, 2 * k);
    PowTwo(v);
    MulAssoc(w, v, Pow(v, 2 * k));
    MulOne(Pow(v, 2 * k));
    PowMul(v, 2, k);
  }

  /** (v^j)^(n/2) is 1 or -1 with the parity of j. */
  lemma RootHalf(w: Scalar, v: Scalar, m: nat, j: nat)
    requires m > 0 && Primitive(w, m) && Mul(w, v) == 1
    ensures Pow(Pow(v, j), Exp2(m - 1)) == if j % 2 == 0 then 1 else Sub(0, 1)
  {
    hide Add, Mul, Sub, Pow;
    var h := Exp2(m - 1);
    PrimitiveInverse(w, v, m);
    PowMul(v, j, h);
    PowMul(v, h, j);
    Commute(j, h);
    SignPow(j);
  }

  lemma {:induction false} SignPow(j: nat)
    ensures Pow(Sub(0, 1), j) == if j % 2 == 0 then 1 else Sub(0, 1)
  {
    hide Add, Mul, Sub;
    if j > 0 {
      SignPow(j - 1);
      MinusOne(1);
      MulOne(1);
      MulOne(Sub(0, 1));
    }
  }

  lemma SumAndDifference(x: Scalar, y: Scalar)
    ensures Add(Add(x, y), Mul(1, Sub(x, y))) == Add(x, x)
    ensures Add(Add(x, y), Mul(Sub(0, 1), Sub(x, y))) == Add(y, y)
  {
    hide Add, Mul, Sub;
    var d := Sub(x, y);
    MulOne(d);
    AddComm(Add(x, y), d);
    AddComm(x, y);
    AddAssoc(d, y, x);
    SubAdd(x, y);
    // x + y - d = y + y
    MinusOne(d);
    AddNeg(Add(x, y), d);
    AddAssoc(y, y, d);
    AddComm(d, y);
    SubUnique(Add(x, y), d, Add(y, y));
  }

  /** Forward, then forward with the inverse root: every entry times n. */
  lemma {:induction false} DftTwice(a: seq<Scalar>, w: Scalar, v: Scalar, m: nat)
    requires |a| == Exp2(m) && Primitive(w, m) && Mul(w, v) == 1
    ensures Dft(Dft(a, w), v) == Scale(Num(|a|), a)
    decreases m
  {
    hide Add, Mul, Sub;
    if m == 0 {
      DftTwiceSingle(a, w, v);
    } else {
      PrimitiveSquare(w, m);
      InverseSquare(w, v);
      DftTwice(Evens(a), Mul(w, w), Mul(v, v), m - 1);
      DftTwice(Odds(a), Mul(w, w), Mul(v, v), m - 1);
      forall l | 0 <= l < |a| ensures Dft(Dft(a, w), v)[l] == Scale(Num(|a|), a)[l] {
        DftTwiceAt(a, w, v, m, l);
      }
    }
  }

  lemma DftTwiceAt(a: seq<Scalar>, w: Scalar, v: Scalar, m: nat, l: nat)
    requires |a| == Exp2(m) && m > 0 && l < |a| && Primitive(w, m) && Mul(w, v) == 1
    requires Dft(Dft(Evens(a), Mul(w, w)), Mul(v, v)) == Scale(Num(|Evens(a)|), Evens(a))
    requires Dft(Dft(Odds(a), Mul(w, w)), Mul(v, v)) == Scale(Num(|Odds(a)|), Odds(a))
    ensures Dft(Dft(a, w), v)[l] == Mul(Num(|a|), a[l])
  {
    hide Add, Mul, Sub, Eval, Pow, Primitive, Num;
    var k, h := l / 2, Num(Exp2(m - 1));
    NumDouble(Exp2(m - 1));
    DistributeRight(h, h, a[l]);
    if l % 2 == 0 {
      DftTwiceEven(a, w, v, m, k);
      assert Dft(Dft(Evens(a), Mul(w, w)), Mul(v, v))[k] == Mul(h, a[l]);
    } else {
      DftTwiceOdd(a, w, v, m, k);
      assert Dft(Dft(Odds(a), Mul(w, w)), Mul(v, v))[k] == Mul(h, a[l]);
    }
  }

  lemma DftTwiceSingle(a: seq<Scalar>, w: Scalar, v: Scalar)
    requires |a| == 1
    ensures Dft(Dft(a, w), v) == Scale(Num(1), a)
  {
    hide Add, Mul, Sub;
    DftSingle(a, w);
    DftSingle(a, v);
    ModSmall(P, 1);
    MulOne(a[0]);
  }

  lemma DftSingle(a: seq<Scalar>, w: Scalar)
    requires |a| == 1
    ensures Dft(a, w) == a
  {
    hide Add, Mul, Sub;
    assert a[1..] == [];
    MulZero(Pow(w, 0));
    AddZero(a[0]);
    assert Eval(a, Pow(w, 0)) == a[0];
  }

  lemma InverseSquare(w: Scalar, v: Scalar)
    requires Mul(w, v) == 1
    ensures Mul(Mul(w, w), Mul(v, v)) == 1
  {
    hide Add, Mul, Sub;
    MulSwap(w, w, v, v);
    MulOne(1);
  }

  // ---------- both orders ----------

  lemma DftScale(c: Scalar, a: seq<Scalar>, w: Scalar)
    ensures Dft(Scale(c, a), w) == Scale(c, Dft(a, w))
  {
    hide Add, Mul, Sub, Eval, Pow;
    forall k | 0 <= k < |a| ensures Dft(Scale(c, a), w)[k] == Scale(c, Dft(a, w))[k] {
      EvalScale(c, a, Pow(w, k));
    }
  }

  lemma ScaleCancel(c: Scalar, a: seq<Scalar>)
    requires c != 0
    ensures Scale(Inv(c), Scale(c, a)) == a
  {
    hide Add, Mul, Sub, Inv;
    forall k | 0 <= k < |a| ensures Scale(Inv(c), Scale(c, a))[k] == a[k] {
      MulAssoc(Inv(c), c, a[k]);
      MulComm(Inv(c), c);
      MulInv(c);
      MulOne(a[k]);
    }
  }

  /** Coefficients are recovered from values... */
  lemma InterpolateDft(a: seq<Scalar>, w: Scalar, v: Scalar, m: nat)
    requires |a| == Exp2(m) && Primitive(w, m) && Mul(w, v) == 1
    ensures Interpolate(Dft(a, w), v) == a
  {
    hide Add, Mul, Sub, Inv, Num, Primitive;
    DftTwice(a, w, v, m);
    NumExp2(m);
    ScaleCancel(Num(|a|), a);
  }

  /** ...and the recovered polynomial takes the given values at every root. */
  lemma DftInterpolate(e: seq<Scalar>, w: Scalar, v: Scalar, m: nat)
    requires |e| == Exp2(m) && Primitive(w, m) && Mul(w, v) == 1
    ensures Dft(Interpolate(e, v), w) == e
  {
    hide Add, Mul, Sub, Inv, Num, Primitive;
    PrimitiveInverse(w, v, m);
    MulComm(w, v);
    DftTwice(e, v, w, m);
    DftScale(Inv(Num(|e|)), Dft(e, v), w);
    NumExp2(m);
    ScaleCancel(Num(|e|), e);
  }

  /** inverse_fft_in_place */
  method InverseFftInPlace(a: array<Scalar>, invRoots: seq<Scalar>, ghost m: nat, ghost v: Scalar)
    requires a.Length == |invRoots| == Exp2(m) && Primitive(v, m)
    requires forall k :: 0 <= k < |invRoots| ==> invRoots[k] == Pow(v, k)
    modifies a
    ensures a[..] == Interpolate(old(a[..]), v)
  {
    hide Add, Mul, Sub, Inv, Num, Pow, Dft, Primitive;
    FftInPlace(a, invRoots, m, v);
    ghost var s := a[..];
    var invN := Inv(Num(a.Length));
    for i := 0 to a.Length
      invariant forall k :: 0 <= k < i ==> a[k] == Mul(invN, s[k])
      invariant forall k :: i <= k < a.Length ==> a[k] == s[k]
    {
      MulComm(a[i], invN);
      a[i] := Mul(a[i], invN);
    }
    assert a[..] == Scale(invN, s);
  }
}

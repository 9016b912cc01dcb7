/** Polynomials as coefficient vectors, lowest degree first, and their values.
    These are the reference definitions that the transform, the quotient and the commitment are
    compared with.
 */
module Polynomials {
  import opened Scalars

  /** The value of the polynomial with coefficients `a` at `x`. */
  function Eval(a: seq<Scalar>, x: Scalar): (r: Scalar) {
    if a == [] then 0 else Add(a[0], Mul(x, Eval(a[1..], x)))
  }

  function Pow(x: Scalar, e: nat): (r: Scalar) {
    if e == 0 then 1 else Mul(x, Pow(x, e - 1))
  }

  function Plus(a: seq<Scalar>, b: seq<Scalar>): (r: seq<Scalar>)
    requires |a| == |b|
    ensures |r| == |a|
  {
    seq(|a|, i requires 0 <= i < |a| => Add(a[i], b[i]))
  }

  function Minus(a: seq<Scalar>, b: seq<Scalar>): (r: seq<Scalar>)
    requires |a| == |b|
    ensures |r| == |a|
  {
    seq(|a|, i requires 0 <= i < |a| => Sub(a[i], b[i]))
  }

  function Scale(c: Scalar, a: seq<Scalar>): (r: seq<Scalar>)
    ensures |r| == |a|
  {
    seq(|a|, i requires 0 <= i < |a| => Mul(c, a[i]))
  }

  /** Coefficient k multiplied by w^k. */
  function Twist(a: seq<Scalar>, w: Scalar): (r: seq<Scalar>)
    ensures |r| == |a|
  {
    seq(|a|, i requires 0 <= i < |a| => Mul(Pow(w, i), a[i]))
  }

  function Zeros(n: nat): (r: seq<Scalar>) {
    seq(n, i => 0)
  }

  // ---------- powers ----------

  lemma {:induction false} PowAdd(x: Scalar, i: nat, j: nat)
    ensures Pow(x, i + j) == Mul(Pow(x, i), Pow(x, j))
  {
    hide Add, Mul, Sub;
    if i == 0 {
      MulOne(Pow(x, j));
    } else {
      PowAdd(x, i - 1, j);
      MulAssoc(x, Pow(x, i - 1), Pow(x, j));
    }
  }

  lemma {:induction false} PowMul(x: Scalar, i: nat, j: nat)
    ensures Pow(Pow(x, i), j) == Pow(x, i * j)
  {
    hide Add, Mul, Sub;
    if j == 0 {
      assert i * j == 0;
    } else {
      PowMul(x, i, j - 1);
      assert i * j == i + i * (j - 1);
      PowAdd(x, i, i * (j - 1));
    }
  }

  lemma {:induction false} PowOne(e: nat)
    ensures Pow(1, e) == 1
  {
    hide Add, Mul, Sub;
    if e > 0 {
      PowOne(e - 1);
      MulOne(1);
    }
  }

  lemma {:induction false} PowOfProduct(x: Scalar, y: Scalar, e: nat)
    ensures Pow(Mul(x, y), e) == Mul(Pow(x, e), Pow(y, e))
  {
    hide Add, Mul, Sub;
    if e == 0 {
      MulOne(1);
    } else {
      PowOfProduct(x, y, e - 1);
      MulSwap(x, y, Pow(x, e - 1), Pow(y, e - 1));
    }
  }

  /** (ab)(cd) = (ac)(bd) */
  lemma MulSwap(a: Scalar, b: Scalar, c: Scalar, d: Scalar)
    ensures Mul(Mul(a, b), Mul(c, d)) == Mul(Mul(a, c), Mul(b, d))
  {
    hide Add, Mul, Sub;
    Ring();
  }

  lemma AddSwap(a: Scalar, b: Scalar, c: Scalar, d: Scalar)
    ensures Add(Add(a, b), Add(c, d)) == Add(Add(a, c), Add(b, d))
  {
    hide Add, Mul, Sub;
    Ring();
  }

  // ---------- values ----------

  lemma {:induction false} EvalPlus(a: seq<Scalar>, b: seq<Scalar>, x: Scalar)
    requires |a| == |b|
    ensures Eval(Plus(a, b), x) == Add(Eval(a, x), Eval(b, x))
  {
    hide Add, Mul, Sub;
    if a == [] {
      AddZero(0);
    } else {
      var p, q := Eval(a[1..], x), Eval(b[1..], x);
      assert Plus(a, b)[1..] == Plus(a[1..], b[1..]);
      EvalPlus(a[1..], b[1..], x);
      MulAdd(x, p, q);
      AddSwap(a[0], b[0], Mul(x, p), Mul(x, q));
    }
  }

  lemma {:induction false} EvalScale(c: Scalar, a: seq<Scalar>, x: Scalar)
    ensures Eval(Scale(c, a), x) == Mul(c, Eval(a, x))
  {
    hide Add, Mul, Sub;
    if a == [] {
      MulZero(c);
    } else {
      var p := Eval(a[1..], x);
      assert Scale(c, a)[1..] == Scale(c, a[1..]);
      EvalScale(c, a[1..], x);
      MulAdd(c, a[0], Mul(x, p));
      MulAssoc(c, x, p);
      MulAssoc(x, c, p);
      MulComm(c, x);
    }
  }

  lemma EvalMinus(a: seq<Scalar>, b: seq<Scalar>, x: Scalar)
    requires |a| == |b|
    ensures Eval(Minus(a, b), x) == Sub(Eval(a, x), Eval(b, x))
  {
    hide Add, Mul, Sub;
    forall i | 0 <= i < |a| ensures Plus(Minus(a, b), b)[i] == a[i] {
      SubAdd(a[i], b[i]);
    }
    assert Plus(Minus(a, b), b) == a;
    EvalPlus(Minus(a, b), b, x);
    SubUnique(Eval(a, x), Eval(b, x), Eval(Minus(a, b), x));
  }

  lemma {:induction false} EvalTwist(a: seq<Scalar>, w: Scalar, x: Scalar)
    ensures Eval(Twist(a, w), x) == Eval(a, Mul(w, x))
  {
    hide Add, Mul, Sub;
    if a != [] {
      var t, u := Twist(a, w)[1..], Twist(a[1..], w);
      forall i | 0 <= i < |u| ensures t[i] == Scale(w, u)[i] {
        MulAssoc(w, Pow(w, i), a[i + 1]);
      }
      assert t == Scale(w, u);
      EvalScale(w, u, x);
      EvalTwist(a[1..], w, x);
      MulOne(a[0]);
      var p := Eval(a[1..], Mul(w, x));
      MulAssoc(x, w, p);
      MulComm(x, w);
    }
  }

  lemma {:induction false} EvalAppend(a: seq<Scalar>, b: seq<Scalar>, x: Scalar)
    ensures Eval(a + b, x) == Add(Eval(a, x), Mul(Pow(x, |a|), Eval(b, x)))
  {
    hide Add, Mul, Sub;
    var q := Eval(b, x);
    if a == [] {
      assert a + b == b;
      MulOne(q);
      AddZero(q);
    } else {
      var p, e := Eval(a[1..], x), Pow(x, |a| - 1);
      assert (a + b)[1..] == a[1..] + b;
      EvalAppend(a[1..], b, x);
      MulAdd(x, p, Mul(e, q));
      MulAssoc(x, e, q);
      AddAssoc(a[0], Mul(x, p), Mul(Mul(x, e), q));
    }
  }

  lemma {:induction false} EvalZeros(n: nat, x: Scalar)
    ensures Eval(Zeros(n), x) == 0
  {
    hide Add, Mul, Sub;
    if n > 0 {
      assert Zeros(n)[1..] == Zeros(n - 1);
      EvalZeros(n - 1, x);
      MulZero(x);
      AddZero(0);
    }
  }

  // ---------- even and odd coefficients ----------

  function Evens(a: seq<Scalar>): (r: seq<Scalar>)
    ensures |r| == (|a| + 1) / 2
    ensures forall i :: 0 <= i < |r| ==> r[i] == a[2 * i]
  {
    seq((|a| + 1) / 2, i requires 0 <= i < (|a| + 1) / 2 => a[2 * i])
  }

  function Odds(a: seq<Scalar>): (r: seq<Scalar>)
    ensures |r| == |a| / 2
    ensures forall i :: 0 <= i < |r| ==> r[i] == a[2 * i + 1]
  {
    seq(|a| / 2, i requires 0 <= i < |a| / 2 => a[2 * i + 1])
  }

  /** a(x) = even(x^2) + x * odd(x^2) */
  lemma {:induction false} EvalEvenOdd(a: seq<Scalar>, x: Scalar)
    ensures Eval(a, x) == Add(Eval(Evens(a), Mul(x, x)), Mul(x, Eval(Odds(a), Mul(x, x))))
  {
    hide Add, Mul, Sub;
    if a == [] {
      MulZero(x);
      AddZero(0);
    } else if |a| == 1 {
      assert Evens(a) == a && Odds(a) == [];
      MulZero(x);
      MulZero(Mul(x, x));
      assert a[1..] == [];
      AddZero(Eval(a, x));
    } else {
      var b := a[2..];
      assert Evens(a)[1..] == Evens(b);
      assert Odds(a)[1..] == Odds(b);
      EvalEvenOdd(b, x);
      assert a[1..][1..] == b;
      HornerTwice(a[0], a[1], x, Eval(Evens(b), Mul(x, x)), Eval(Odds(b), Mul(x, x)));
    }
  }

  lemma HornerTwice(a: Scalar, b: Scalar, x: Scalar, e: Scalar, o: Scalar)
    ensures Add(a, Mul(x, Add(b, Mul(x, Add(e, Mul(x, o))))))
         == Add(Add(a, Mul(Mul(x, x), e)), Mul(x, Add(b, Mul(Mul(x, x), o))))
  {
    hide Add, Mul, Sub;
    Ring();
  }

  // ---------- division by X - z ----------

  /** The quotient of `a` by X - z (synthetic division); the remainder is a(z). */
  function Quotient(a: seq<Scalar>, z: Scalar): (r: seq<Scalar>)
    ensures |r| == if a == [] then 0 else |a| - 1
  {
    if |a| <= 1 then [] else [Eval(a[1..], z)] + Quotient(a[1..], z)
  }

  /** a(x) - a(z) = (x - z) * q(x) */
  lemma {:induction false} QuotientDivides(a: seq<Scalar>, z: Scalar, x: Scalar)
    ensures Sub(Eval(a, x), Eval(a, z)) == Mul(Sub(x, z), Eval(Quotient(a, z), x))
  {
    hide Add, Mul, Sub;
    if |a| <= 1 {
      if |a| == 1 {
        assert a[1..] == [];
        MulZero(x);
        MulZero(z);
      }
      AddZero(Eval(a, x));
      MulZero(Sub(x, z));
    } else {
      var b := a[1..];
      QuotientDivides(b, z, x);
      assert Quotient(a, z)[1..] == Quotient(b, z);
      DivisionStep(a[0], x, z, Eval(b, x), Eval(b, z), Eval(Quotient(b, z), x));
    }
  }

  lemma DivisionStep(a: Scalar, x: Scalar, z: Scalar, bx: Scalar, bz: Scalar, q: Scalar)
    requires Sub(bx, bz) == Mul(Sub(x, z), q)
    ensures Sub(Add(a, Mul(x, bx)), Add(a, Mul(z, bz))) == Mul(Sub(x, z), Add(bz, Mul(x, q)))
  {
    hide Add, Mul, Sub;
    // (x - z)(bz + x q) = (x - z) bz + x (bx - bz) = x bx - z bz
    var d := Sub(x, z);
    calc {
      Add(Mul(d, Add(bz, Mul(x, q))), Add(a, Mul(z, bz)));
    ==  { MulAdd(d, bz, Mul(x, q)); ShuffleProduct(d, x, q); }
      Add(Add(Mul(d, bz), Mul(x, Sub(bx, bz))), Add(a, Mul(z, bz)));
    ==  { AddRotate(Mul(d, bz), Mul(x, Sub(bx, bz)), a, Mul(z, bz)); }
      Add(a, Add(Mul(x, Sub(bx, bz)), Add(Mul(d, bz), Mul(z, bz))));
    ==  { DistributeRight(d, z, bz); SubAdd(x, z); }
      Add(a, Add(Mul(x, Sub(bx, bz)), Mul(x, bz)));
    ==  { MulAdd(x, Sub(bx, bz), bz); SubAdd(bx, bz); }
      Add(a, Mul(x, bx));
    }
    SubUnique(Add(a, Mul(x, bx)), Add(a, Mul(z, bz)), Mul(d, Add(bz, Mul(x, q))));
  }

  lemma ShuffleProduct(d: Scalar, x: Scalar, q: Scalar)
    ensures Mul(d, Mul(x, q)) == Mul(x, Mul(d, q))
  {
    hide Add, Mul, Sub;
    Ring();
  }

  lemma AddRotate(a: Scalar, b: Scalar, c: Scalar, d: Scalar)
    ensures Add(Add(a, b), Add(c, d)) == Add(c, Add(b, Add(a, d)))
  {
    hide Add, Mul, Sub;
    Ring();
  }

  lemma DistributeRight(x: Scalar, y: Scalar, z: Scalar)
    ensures Add(Mul(x, z), Mul(y, z)) == Mul(Add(x, y), z)
  {
    hide Add, Mul, Sub;
    Ring();
  }
}

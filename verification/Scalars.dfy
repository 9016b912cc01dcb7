/** Scalars of the commitment group: integers modulo a prime.

    `P` carries no value on purpose: everything in this project holds for every odd prime below
    2^256, the order of the BLS12-381 subgroup among them.

    The product of two variables modulo a third is costly to reason about, so the definitions below
    are used only here. Other modules `hide` them and rely on the lemmas.
 */
module Scalars {

  ghost predicate IsProduct(a: int, b: int, p: int) {
    a * b == p
  }

  ghost predicate IsPrime(p: int) {
    p > 1 && forall a, b :: 1 < a < p && 1 < b < p ==> !IsProduct(a, b, p)
  }

  const TWO_256: int := 0x1_0000_0000_0000_0000_0000_0000_0000_0000_0000_0000_0000_0000_0000_0000_0000_0000

  lemma ThreeIsPrime()
    ensures IsPrime(3)
  {
    forall a, b | 1 < a < 3 && 1 < b < 3 ensures !IsProduct(a, b, 3) {
      assert a == 2 && b == 2;
    }
  }

  type Prime = p: int | 2 < p < TWO_256 && IsPrime(p) witness (ThreeIsPrime(); 3)

  /** The modulus: an arbitrary odd prime. */
  const P: Prime

  type Scalar = x: int | 0 <= x < P witness 0

  /** Remainder modulo m. */
  function Mod(m: int, x: int): (r: int)
    requires m > 0
    ensures 0 <= r < m
  {
    x % m
  }

  function Add(x: Scalar, y: Scalar): (r: Scalar) {
    Mod(P, x + y)
  }

  function Sub(x: Scalar, y: Scalar): (r: Scalar) {
    Mod(P, x - y)
  }

  function Mul(x: Scalar, y: Scalar): (r: Scalar) {
    Mod(P, x * y)
  }

  /** Euclid's recursion for the inverse; zero is its own inverse, as in the curve library. */
  function Inv(x: Scalar): (r: Scalar)
    decreases x
  {
    if x == 0 then 0
    else if x == 1 then 1
    else Sub(0, Mul(Mod(P, P / x), Inv(P % x)))
  }

  // ---------- congruences modulo m ----------

  lemma ModUnique(m: int, x: int, q: int, r: int)
    requires 0 <= r < m && x == q * m + r
    ensures x % m == r && x / m == q && Mod(m, x) == r
  {
    var d := x / m - q;
    assert d * m == r - x % m by {
      assert d * m == (x / m) * m - q * m;
    }
    assert d == 0 by {
      if d >= 1 { MulGrows(d, m); }
      if d <= -1 { MulGrows(-d, m); }
    }
  }

  lemma MulGrows(d: int, m: int)
    requires d >= 1 && m > 0
    ensures d * m >= m && (-d) * m == -(d * m)
  {
  }

  /** Adding a multiple of the modulus changes no remainder. */
  lemma ModShift(m: int, x: int, k: int)
    requires m > 0
    ensures Mod(m, x + k * m) == Mod(m, x)
  {
    assert (x / m + k) * m == (x / m) * m + k * m;
    ModUnique(m, x + k * m, x / m + k, x % m);
  }

  /** A number is its remainder plus a multiple of the modulus. */
  lemma ModSplit(m: int, x: int) returns (q: int)
    requires m > 0
    ensures x == q * m + Mod(m, x)
  {
    q := x / m;
  }

  lemma ModMul(m: int, x: int, y: int)
    requires m > 0
    ensures Mod(m, Mod(m, x) * y) == Mod(m, x * y)
  {
    hide Mod;
    var q := ModSplit(m, x);
    var r := Mod(m, x);
    assert (q * m + r) * y == r * y + (q * y) * m;
    ModShift(m, r * y, q * y);
  }

  lemma ModAdd(m: int, x: int, y: int)
    requires m > 0
    ensures Mod(m, Mod(m, x) + y) == Mod(m, x + y)
  {
    hide Mod;
    var q := ModSplit(m, x);
    ModShift(m, Mod(m, x) + y, q);
  }

  lemma ModSub(m: int, x: int, y: int)
    requires m > 0
    ensures Mod(m, x - Mod(m, y)) == Mod(m, x - y)
  {
    hide Mod;
    var q := ModSplit(m, y);
    ModShift(m, x - y, q);
  }

  lemma ModSmall(m: int, x: int)
    requires 0 <= x < m
    ensures Mod(m, x) == x
  {
    ModUnique(m, x, 0, x);
  }

  // ---------- ring laws ----------

  lemma AddComm(x: Scalar, y: Scalar)
    ensures Add(x, y) == Add(y, x)
  {
    hide Mod;
  }

  lemma AddAssoc(x: Scalar, y: Scalar, z: Scalar)
    ensures Add(Add(x, y), z) == Add(x, Add(y, z))
  {
    hide Mod;
    ModAdd(P, x + y, z);
    ModAdd(P, y + z, x);
  }

  lemma AddZero(x: Scalar)
    ensures Add(x, 0) == x && Add(0, x) == x && Sub(x, 0) == x && Sub(x, x) == 0
  {
    hide Mod;
    ModSmall(P, x);
    ModSmall(P, 0);
  }

  /** Subtraction undoes addition and the other way round. */
  lemma SubAdd(x: Scalar, y: Scalar)
    ensures Add(Sub(x, y), y) == x && Sub(Add(x, y), y) == x
  {
    hide Mod;
    ModAdd(P, x - y, y);
    ModAddNeg(P, x + y, y);
    ModSmall(P, x);
  }

  lemma ModAddNeg(m: int, x: int, y: int)
    requires m > 0
    ensures Mod(m, Mod(m, x) - y) == Mod(m, x - y)
  {
    hide Mod;
    ModAdd(m, x, -y);
  }

  lemma MulComm(x: Scalar, y: Scalar)
    ensures Mul(x, y) == Mul(y, x)
  {
    hide Mod;
    Commute(x, y);
  }

  lemma MulAssoc(x: Scalar, y: Scalar, z: Scalar)
    ensures Mul(Mul(x, y), z) == Mul(x, Mul(y, z))
  {
    hide Mod;
    ModMul(P, x * y, z);
    ModMul(P, y * z, x);
    Reassociate(x, y, z);
    Commute(x, Mod(P, y * z));
  }

  lemma Commute(x: int, y: int)
    ensures x * y == y * x
  {
  }

  lemma Reassociate(x: int, y: int, z: int)
    ensures (y * z) * x == (x * y) * z
  {
  }

  lemma MulOne(x: Scalar)
    ensures Mul(x, 1) == x && Mul(1, x) == x
  {
    hide Mod;
    ModSmall(P, x);
  }

  lemma MulZero(x: Scalar)
    ensures Mul(x, 0) == 0 && Mul(0, x) == 0
  {
    hide Mod;
    ModSmall(P, 0);
  }

  lemma MulAdd(x: Scalar, y: Scalar, z: Scalar)
    ensures Mul(x, Add(y, z)) == Add(Mul(x, y), Mul(x, z))
  {
    hide Mod;
    ModMul(P, y + z, x);
    Commute(x, Mod(P, y + z));
    Distribute(x, y, z);
    ModAdd(P, x * y, Mod(P, x * z));
    ModAdd(P, x * z, x * y);
  }

  lemma Distribute(x: int, y: int, z: int)
    ensures (y + z) * x == x * y + x * z
  {
  }

  // ---------- field law ----------

  lemma PrimeNoFactor(p: int, x: int)
    requires IsPrime(p) && 1 < x < p
    ensures p % x != 0
  {
    if p % x == 0 {
      FactorBounds(p, x, p / x);
      assert IsProduct(x, p / x, p);
    }
  }

  lemma FactorBounds(p: int, x: int, q: int)
    requires 1 < x < p && p == x * q
    ensures 1 < q < p
  {
    if q <= 1 { MulMonotone(x, q, 1); }
    if q >= p { MulMonotone(q, 2, x); }
  }

  lemma MulMonotone(x: int, a: int, b: int)
    requires a <= b
    ensures x >= 0 ==> x * a <= x * b
  {
  }

  /** Every scalar but zero has an inverse. */
  lemma {:induction false} MulInv(x: Scalar)
    requires x != 0
    ensures Mul(x, Inv(x)) == 1
    decreases x
  {
    if x == 1 {
      MulOne(1);
    } else {
      hide Mod, IsPrime;
      PrimeNoFactor(P, x);
      MulInv(P % x);
      EuclidStep(P, x, Inv(P % x));
    }
  }

  lemma EuclidStep(m: int, x: int, i: int)
    requires 1 < x < m && Mod(m, (m % x) * i) == 1
    ensures Mod(m, x * Mod(m, 0 - Mod(m, Mod(m, m / x) * i))) == 1
  {
    var q, r := m / x, m % x;
    EuclidIdentity(m, x, q, r, i);
    EuclidChain(m, x, q, r, i);
  }

  lemma EuclidChain(m: int, x: int, q: int, r: int, i: int)
    requires m > 0 && 0 - (q * i) * x == r * i + (-i) * m && Mod(m, r * i) == 1
    ensures Mod(m, x * Mod(m, 0 - Mod(m, Mod(m, q) * i))) == 1
  {
    hide Mod;
    ModMul(m, q, i);
    var t := Mod(m, q * i);
    Commute(x, Mod(m, 0 - t));
    ModMul(m, 0 - t, x);
    NegTimes(t, x);
    ModSub(m, 0, t * x);
    ModMul(m, q * i, x);
    ModSub(m, 0, (q * i) * x);
    ModShift(m, r * i, -i);
  }

  lemma NegTimes(t: int, x: int)
    ensures (0 - t) * x == 0 - t * x
  {
  }

  lemma EuclidIdentity(m: int, x: int, q: int, r: int, i: int)
    requires m == x * q + r
    ensures 0 - (q * i) * x == r * i + (-i) * m
  {
    assert i * m == (q * i) * x + r * i;
  }

  // ---------- consequences, from the laws alone ----------

  /** The commutative-ring laws in quantified form, for short identities. */
  lemma Ring()
    ensures forall x: Scalar, y: Scalar :: Add(x, y) == Add(y, x)
    ensures forall x: Scalar, y: Scalar, z: Scalar :: Add(Add(x, y), z) == Add(x, Add(y, z))
    ensures forall x: Scalar, y: Scalar :: Mul(x, y) == Mul(y, x)
    ensures forall x: Scalar, y: Scalar, z: Scalar :: Mul(Mul(x, y), z) == Mul(x, Mul(y, z))
    ensures forall x: Scalar, y: Scalar, z: Scalar :: Mul(x, Add(y, z)) == Add(Mul(x, y), Mul(x, z))
  {
    hide Add, Mul;
    forall x: Scalar, y: Scalar ensures Add(x, y) == Add(y, x) { AddComm(x, y); }
    forall x: Scalar, y: Scalar ensures Mul(x, y) == Mul(y, x) { MulComm(x, y); }
    forall x: Scalar, y: Scalar, z: Scalar ensures Add(Add(x, y), z) == Add(x, Add(y, z)) {
      AddAssoc(x, y, z);
    }
    forall x: Scalar, y: Scalar, z: Scalar ensures Mul(Mul(x, y), z) == Mul(x, Mul(y, z)) {
      MulAssoc(x, y, z);
    }
    forall x: Scalar, y: Scalar, z: Scalar ensures Mul(x, Add(y, z)) == Add(Mul(x, y), Mul(x, z)) {
      MulAdd(x, y, z);
    }
  }

  /** A difference is the one solution of its equation. */
  lemma SubUnique(x: Scalar, y: Scalar, d: Scalar)
    requires Add(d, y) == x
    ensures Sub(x, y) == d
  {
    hide Add, Mul, Sub;
    SubAdd(d, y);
  }

  lemma AddCancel(x: Scalar, y: Scalar, z: Scalar)
    requires Add(x, z) == Add(y, z)
    ensures x == y
  {
    hide Add, Mul, Sub;
    SubAdd(x, z);
    SubAdd(y, z);
  }

  lemma MulSub(x: Scalar, y: Scalar, z: Scalar)
    ensures Mul(x, Sub(y, z)) == Sub(Mul(x, y), Mul(x, z))
  {
    hide Add, Mul, Sub;
    MulAdd(x, Sub(y, z), z);
    SubAdd(y, z);
    SubUnique(Mul(x, y), Mul(x, z), Mul(x, Sub(y, z)));
  }

  /** (a - b) + (b - c) = a - c */
  lemma SubChain(a: Scalar, b: Scalar, c: Scalar)
    ensures Add(Sub(a, b), Sub(b, c)) == Sub(a, c)
  {
    hide Add, Mul, Sub;
    AddAssoc(Sub(a, b), Sub(b, c), c);
    SubAdd(b, c);
    SubAdd(a, b);
    SubUnique(a, c, Add(Sub(a, b), Sub(b, c)));
  }

  lemma SubZero(x: Scalar, y: Scalar)
    ensures Sub(x, y) == 0 <==> x == y
  {
    hide Add, Mul, Sub;
    SubAdd(x, y);
    AddZero(y);
    AddZero(x);
  }

  /** A field has no zero divisors. */
  lemma MulNonZero(x: Scalar, y: Scalar)
    ensures Mul(x, y) == 0 <==> x == 0 || y == 0
  {
    hide Add, Mul, Sub, Inv;
    MulZero(x);
    MulZero(y);
    if x != 0 && y != 0 && Mul(x, y) == 0 {
      MulAssoc(Inv(x), x, y);
      MulComm(Inv(x), x);
      MulInv(x);
      MulOne(y);
      MulZero(Inv(x));
    }
  }

  lemma MulCancel(x: Scalar, y: Scalar, z: Scalar)
    requires z != 0 && Mul(z, x) == Mul(z, y)
    ensures x == y
  {
    hide Add, Mul, Sub, Inv;
    MulSub(z, x, y);
    SubZero(Mul(z, x), Mul(z, y));
    MulNonZero(z, Sub(x, y));
    SubZero(x, y);
  }

  /** An inverse is unique. */
  lemma InvUnique(x: Scalar, y: Scalar)
    requires Mul(x, y) == 1
    ensures x != 0 && y == Inv(x)
  {
    hide Add, Mul, Sub, Inv;
    MulZero(y);
    if x != 0 {
      MulInv(x);
      MulCancel(y, Inv(x), x);
    }
  }
}

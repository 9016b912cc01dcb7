/** Building the roots of unity and the powers of the secret (settings.cpp). */
module SettingsBuild {
  import opened Options
  import opened Scalars
  import opened Polynomials
  import opened BitReversal
  import opened Fft
  import opened QuotientProof
  import opened Kzg
  import opened BigInts

  /** A square root of one other than one is minus one. */
  lemma SquareRootOfOne(x: Scalar)
    requires Mul(x, x) == 1 && x != 1
    ensures x == Sub(0, 1)
  {
    hide *;
    // (x - 1)(x + 1) = 0
    var d := Sub(x, 1);
    SubZero(x, 1);
    MulAdd(d, x, 1);
    MulOne(d);
    MulComm(d, x);
    MulSub(x, x, 1);
    MulOne(x);
    SubChain(1, x, 1);
    AddZero(1);
    MulNonZero(d, Add(x, 1));
    AddNegOne(x);
  }

  lemma AddNegOne(x: Scalar)
    ensures Add(x, 1) == 0 ==> x == Sub(0, 1)
  {
    hide *;
    SubAdd(x, 1);
  }

  /** The two checks at the end of build_roots make w a primitive n-th root. */
  lemma ChecksMakePrimitive(w: Scalar, m: nat)
    requires m > 0 && Pow(w, Exp2(m)) == 1 && Pow(w, Exp2(m - 1)) != 1
    ensures Primitive(w, m) && w != 0 && Mul(w, Inv(w)) == 1 && Primitive(Inv(w), m)
  {
    hide Add, Mul, Sub, Pow, Inv;
    var h := Exp2(m - 1);
    PowAdd(w, h, h);
    SquareRootOfOne(Pow(w, h));
    PrimitiveNonZero(w, m);
    MulInv(w);
    PrimitiveInverse(w, Inv(w), m);
  }

  lemma InverseOfPow(w: Scalar, i: nat)
    requires w != 0
    ensures Inv(Pow(w, i)) == Pow(Inv(w), i)
  {
    hide Add, Mul, Sub, Inv, Pow;
    MulInv(w);
    PowOfProduct(w, Inv(w), i);
    PowOne(i);
    InvUnique(Pow(w, i), Pow(Inv(w), i));
  }

  /** (p - 1) / n, the exponent that turns a generator into an n-th root. */
  function RootExponent(n: int): (e: nat)
    requires n > 0
  {
    (P - 1) / n
  }

  method RootExponentLimbs(n: Limb, modulus: BigInt) returns (e: BigInt)
    requires n > 0 && Trimmed(modulus.limbs) && modulus.Val() == P
    ensures fresh(e) && Trimmed(e.limbs) && e.Val() == RootExponent(n)
  {
    hide IsPrime;
    e := new BigInt.Copy(modulus);
    OddModulus(e.limbs);
    e.SubU64(1);
    var _ := e.DivU64(n);
  }

  /** The tables of powers and of their inverses. */
  method RootTables(n: nat, w: Scalar) returns (roots: seq<Scalar>, invRoots: seq<Scalar>)
    requires n > 0
    ensures |roots| == |invRoots| == n && PowersOf(roots, w)
    ensures w != 0 ==> PowersOf(invRoots, Inv(w))
  {
    hide Add, Mul, Sub, Inv, Pow;
    var r := new Scalar[n](_ => 0);
    var v := new Scalar[n](_ => 0);
    r[0] := 1;
    v[0] := 1;
    PowStart(w);
    PowStart(Inv(w));
    for i := 1 to n
      invariant forall k :: 0 <= k < i ==> r[k] == Pow(w, k)
      invariant w != 0 ==> forall k :: 0 <= k < i ==> v[k] == Pow(Inv(w), k)
    {
      PowNext(w, i);
      r[i] := Mul(r[i - 1], w);
      v[i] := Inv(r[i]);
      if w != 0 {
        InverseOfPow(w, i);
      }
    }
    roots, invRoots := r[..], v[..];
  }

  /** The closing assertions. */
  method CheckRoot(n: Limb, w: Scalar) returns (ok: bool)
    ensures ok <==> Pow(w, n) == 1 && Pow(w, n / 2) != 1
  {
    hide Add, Mul, Sub, Inv, Pow;
    var nn := new BigInt(n);
    var full := ModularPow(w, nn);
    var _ := nn.DivU64(2);
    var half := ModularPow(w, nn);
    return full == 1 && half != 1;
  }

  /** build_roots for the modulus given as limbs and the generator g. The result is None where the
      closing assertions fail. */
  method BuildRoots(n: Limb, modulus: BigInt, g: Scalar, ghost m: nat)
    returns (r: Option<(seq<Scalar>, seq<Scalar>)>)
    requires n == Exp2(m) && m > 0
    requires Trimmed(modulus.limbs) && modulus.Val() == P
    ensures var w := Pow(g, RootExponent(n));
            && (r.Some? <==> Pow(w, n) == 1 && Pow(w, n / 2) != 1)
            && (r.Some? ==> Mul(w, Inv(w)) == 1 && IsDomain(r.value.0, w, m) && IsDomain(r.value.1, Inv(w), m))
  {
    hide *;
    var e := RootExponentLimbs(n, modulus);
    var w := ModularPow(g, e);
    var roots, invRoots := RootTables(n, w);
    var ok := CheckRoot(n, w);
    if !ok {
      return None;
    }
    ExpDouble(m);
    ChecksMakePrimitive(w, m);
    DomainFrom(roots, w, m);
    DomainFrom(invRoots, Inv(w), m);
    return Some((roots, invRoots));
  }

  lemma DomainFrom(roots: seq<Scalar>, w: Scalar, m: nat)
    requires |roots| == Exp2(m) && Primitive(w, m) && PowersOf(roots, w)
    ensures IsDomain(roots, w, m)
  {
  }

  /** The modulus is odd, so its lowest limb covers the subtraction of one. */
  lemma OddModulus(s: seq<Limb>)
    requires Value(s) == P
    ensures s != [] && s[0] >= 1
  {
    hide IsPrime;
    if s[0] == 0 {
      EvenPrime(P, (BASE / 2) * Value(s[1..]));
    }
  }

  lemma EvenPrime(p: int, k: int)
    requires 2 < p && IsPrime(p)
    ensures p != 2 * k
  {
    if p == 2 * k {
      assert IsProduct(2, k, p);
    }
  }

  lemma PowStart(x: Scalar)
    ensures Pow(x, 0) == 1
  {
  }

  lemma PowNext(x: Scalar, i: nat)
    requires i > 0
    ensures Pow(x, i) == Mul(Pow(x, i - 1), x)
  {
    hide Mul;
    MulComm(x, Pow(x, i - 1));
  }

  /** The SRS constructor: powers of the secret in both groups. */
  method BuildPowers(degree: nat, s: Scalar) returns (g1: seq<Scalar>, g2: seq<Scalar>)
    ensures |g1| == |g2| == degree && PowersOf(g1, s) && PowersOf(g2, s)
  {
    hide Add, Mul, Sub, Pow;
    g1, g2 := [], [];
    var powS: Scalar := 1;
    PowStart(s);
    for i := 0 to degree
      invariant |g1| == |g2| == i && PowersOf(g1, s) && PowersOf(g2, s) && powS == Pow(s, i)
    {
      MulOne(powS);
      g1 := g1 + [Mul(1, powS)];
      g2 := g2 + [Mul(1, powS)];
      PowNext(s, i + 1);
      powS := Mul(powS, s);
    }
  }

  /** init_settings: the result meets every assumption of the commitment engine. */
  method InitSettings(degree: Limb, s: Scalar, modulus: BigInt, g: Scalar, ghost m: nat)
    returns (r: Option<Settings>)
    requires degree == Exp2(m) && m > 0
    requires Trimmed(modulus.limbs) && modulus.Val() == P
    ensures var w := Pow(g, RootExponent(degree));
            && (r.Some? <==> Pow(w, degree) == 1 && Pow(w, degree / 2) != 1)
            && (r.Some? ==> ValidSettings(r.value, m, w, Inv(w), s))
  {
    hide *;
    var roots := BuildRoots(degree, modulus, g, m);
    var g1, g2 := BuildPowers(degree, s);
    if roots.None? {
      return None;
    }
    var k := Settings(roots.value.0, roots.value.1, g1, g2);
    SettingsFrom(k, m, Pow(g, RootExponent(degree)), s);
    return Some(k);
  }

  lemma SettingsFrom(k: Settings, m: nat, w: Scalar, s: Scalar)
    requires IsDomain(k.roots, w, m) && IsDomain(k.invRoots, Inv(w), m) && Mul(w, Inv(w)) == 1
    requires |k.g1| == |k.g2| == Exp2(m) && PowersOf(k.g1, s) && PowersOf(k.g2, s)
    ensures ValidSettings(k, m, w, Inv(w), s)
  {
  }
}

/** Multi-limb naturals (bigint.h) and exponentiation by them (helpers.cpp:96-114). */
module BigInts {
  import opened Scalars
  import opened Polynomials

  const BASE: int := 0x1_0000_0000_0000_0000

  type Limb = x: int | 0 <= x < BASE witness 0

  /** The number whose base-2^64 digits are the limbs, lowest first. */
  function Value(s: seq<Limb>): (v: nat) {
    if s == [] then 0 else s[0] + BASE * Value(s[1..])
  }

  /** No leading zero limb. */
  predicate Trimmed(s: seq<Limb>) {
    s == [] || s[|s| - 1] != 0
  }

  lemma {:induction false} ValueDropZero(s: seq<Limb>)
    ensures Value(s + [0]) == Value(s)
  {
    if s == [] {
      assert [0][1..] == [];
      assert Value([0]) == 0;
    } else {
      ValueDropZero(s[1..]);
      assert (s + [0])[1..] == s[1..] + [0];
    }
  }

  lemma {:induction false} ValuePositive(s: seq<Limb>)
    requires Trimmed(s) && s != []
    ensures Value(s) > 0
  {
    if |s| > 1 {
      ValuePositive(s[1..]);
    }
  }

  /** One step of long division from the top limb down. */
  lemma LongDivisionStep(d: int, high: int, quotient: int, rem: int, limb: int)
    requires d > 0 && high == quotient * d + rem && 0 <= rem < d && 0 <= limb < BASE
    ensures var cur := rem * BASE + limb;
            && 0 <= cur / d < BASE
            && 0 <= cur % d < d
            && limb + BASE * high == (cur / d + BASE * quotient) * d + cur % d
  {
    var cur := rem * BASE + limb;
    var q, r := cur / d, cur % d;
    assert cur == q * d + r;
    assert cur < d * BASE;
    QuotientBound(cur, d, q, r);
    assert BASE * (quotient * d) == (BASE * quotient) * d;
    assert (q + BASE * quotient) * d == q * d + (BASE * quotient) * d;
  }

  lemma QuotientBound(cur: int, d: int, q: int, r: int)
    requires d > 0 && cur == q * d + r && 0 <= r < d && 0 <= cur < d * BASE
    ensures 0 <= q < BASE
  {
    if q < 0 { MulMonotone(d, q, -1); }
    if q >= BASE { MulMonotone(d, BASE, q); }
  }

  lemma SingleLimb(v: Limb)
    ensures Value([v]) == v
  {
    assert [v][1..] == [];
  }

  class BigInt {
    var limbs: seq<Limb>

    ghost function Val(): (v: nat)
      reads this
    {
      Value(limbs)
    }

    constructor (v: Limb)
      ensures Trimmed(limbs) && Val() == v
    {
      limbs := if v != 0 then [v] else [];
      SingleLimb(v);
    }

    constructor Copy(other: BigInt)
      ensures limbs == other.limbs
    {
      limbs := other.limbs;
    }

    method IsZero() returns (r: bool)
      requires Trimmed(limbs)
      ensures r <==> Val() == 0
    {
      if limbs != [] {
        ValuePositive(limbs);
      }
      return limbs == [];
    }

    method IsOdd() returns (r: bool)
      ensures r <==> Val() % 2 == 1
    {
      return limbs != [] && limbs[0] % 2 == 1;
    }

    method Trim()
      modifies this
      ensures Trimmed(limbs) && Val() == old(Val())
    {
      while limbs != [] && limbs[|limbs| - 1] == 0
        invariant Val() == old(Val())
        decreases |limbs|
      {
        var s := limbs[..|limbs| - 1];
        assert limbs == s + [0];
        ValueDropZero(s);
        limbs := s;
      }
    }

    /** div_u64: exact quotient and remainder. */
    method DivU64(d: Limb) returns (r: Limb)
      requires d != 0
      modifies this
      ensures Trimmed(limbs)
      ensures Val() == old(Val()) / d && r == old(Val()) % d
    {
      var rem: int := 0;
      ghost var was := limbs;
      assert was[|was|..] == [] && limbs[|was|..] == [];
      for i := |limbs| downto 0
        invariant |limbs| == |was| && limbs[..i] == was[..i]
        invariant 0 <= rem < d
        invariant Value(was[i..]) == Value(limbs[i..]) * d + rem
      {
        assert was[i..][1..] == was[i + 1..] && limbs[i] == was[i];
        ghost var high := limbs[i + 1..];
        LongDivisionStep(d, Value(was[i + 1..]), Value(high), rem, limbs[i]);
        var cur := rem * BASE + limbs[i];
        limbs := limbs[i := cur / d];
        assert limbs[i..][1..] == high;
        rem := cur % d;
      }
      assert was[0..] == was && limbs[0..] == limbs;
      ModUnique(d, Value(was), Value(limbs), rem);
      Trim();
      return rem;
    }

    /** sub_u64, borrow included: a limb too small is set to zero and one more than the rest is
        taken from the next, in 64-bit arithmetic. */
    method SubU64(v0: Limb)
      modifies this
      ensures Trimmed(limbs)
      ensures v0 != 0 && old(limbs) != [] && old(Val()) >= v0 ==> (Val() == old(Val()) - v0 <==> old(limbs)[0] >= v0)
      ensures v0 == 0 ==> Val() == old(Val())
    {
      ghost var was := limbs;
      var v: Limb := v0;
      var i := 0;
      while v != 0 && i < |limbs|
        invariant |limbs| == |was| && i <= |limbs|
        invariant i == 0 ==> limbs == was && v == v0
        invariant i > 0 && was[0] >= v0 ==> v == 0 && limbs == was[0 := was[0] - v0]
        invariant i > 0 && was[0] < v0 ==> limbs[0] == 0
        decreases |limbs| - i
      {
        if limbs[i] >= v {
          limbs := limbs[i := limbs[i] - v];
          v := 0;
        } else {
          v := (v - limbs[i] + 1) % BASE;
          limbs := limbs[i := 0];
        }
        i := i + 1;
      }
      if v0 != 0 && was != [] && Value(was) >= v0 {
        SubtractionResult(was, v0, limbs);
      }
      Trim();
    }
  }

  /** A zero lowest limb is the wrong remainder modulo 2^64 unless nothing was borrowed. */
  lemma SubtractionResult(was: seq<Limb>, v: Limb, now: seq<Limb>)
    requires was != [] && |now| == |was| && v != 0
    requires was[0] >= v ==> now == was[0 := was[0] - v]
    requires was[0] < v ==> now[0] == 0
    ensures Value(now) == Value(was) - v <==> was[0] >= v
  {
    if was[0] >= v {
      assert now[1..] == was[1..];
    } else {
      NotMultiple(Value(now[1..]) - Value(was[1..]), was[0] - v);
    }
  }

  lemma NotMultiple(k: int, r: int)
    requires 0 < -r < BASE
    ensures BASE * k != r
  {
  }

  /** One less than 2^64, computed with a borrow, is not 2^64 - 1. */
  method BorrowFails() returns (limbs: seq<Limb>)
    ensures Value(limbs) != BASE - 1
  {
    var n := new BigInt(1);
    n.limbs := [0, 1];
    assert Value([1]) == 1 && Value([0, 1]) == BASE by {
      assert [0, 1][1..] == [1] && [1][1..] == [];
    }
    n.SubU64(1);
    limbs := n.limbs;
  }

  /** modular_pow: square and multiply, for exponents of any length. */
  method ModularPow(base: Scalar, exp: BigInt) returns (result: Scalar)
    requires Trimmed(exp.limbs)
    ensures result == Pow(base, exp.Val())
  {
    hide Add, Mul, Sub, Pow;
    result := 1;
    var baseAcc := base;
    var e := new BigInt.Copy(exp);
    MulOne(Pow(base, e.Val()));
    var zero := e.IsZero();
    while !zero
      invariant Trimmed(e.limbs) && fresh(e) && (zero <==> e.Val() == 0)
      invariant Mul(result, Pow(baseAcc, e.Val())) == Pow(base, exp.Val())
      decreases e.Val()
    {
      var odd := e.IsOdd();
      PowHalve(baseAcc, e.Val(), e.Val() / 2, odd, result);
      if odd {
        result := Mul(result, baseAcc);
      }
      baseAcc := Mul(baseAcc, baseAcc);
      var _ := e.DivU64(2);
      zero := e.IsZero();
    }
    PowNothing(baseAcc, result);
  }

  lemma PowNothing(x: Scalar, r: Scalar)
    ensures Mul(r, Pow(x, 0)) == r
  {
    hide Mul;
    MulOne(r);
  }

  lemma PowEven(x: Scalar, h: nat)
    ensures Pow(x, h + h) == Pow(Mul(x, x), h)
  {
    hide *;
    PowOfProduct(x, x, h);
    PowAdd(x, h, h);
  }

  lemma PowOdd(x: Scalar, h: nat, r: Scalar)
    ensures Mul(r, Pow(x, 1 + (h + h))) == Mul(Mul(r, x), Pow(Mul(x, x), h))
  {
    hide *;
    PowEven(x, h);
    PowAdd(x, 1, h + h);
    PowFirst(x);
    MulAssoc(r, x, Pow(x, h + h));
  }

  /** x^e = (x^2)^h for e = 2h, and times x for e = 2h + 1 */
  lemma PowHalve(x: Scalar, e: nat, h: nat, odd: bool, r: Scalar)
    requires e == if odd then 1 + (h + h) else h + h
    ensures Mul(r, Pow(x, e)) == Mul(if odd then Mul(r, x) else r, Pow(Mul(x, x), h))
  {
    hide *;
    if odd {
      PowOdd(x, h, r);
    } else {
      PowEven(x, h);
    }
  }

  lemma PowFirst(x: Scalar)
    ensures Pow(x, 1) == x
  {
    hide Add, Mul, Sub;
    assert Pow(x, 1) == Mul(x, Pow(x, 0));
    MulOne(x);
  }
}

/** Batch inversion and the quotient in evaluation form (polynomial.cpp:76-157). */
module Quotients {
  import opened Options
  import opened Scalars

  // ---------- batch inversion ----------

  function Product(s: seq<Scalar>): (r: Scalar) {
    if s == [] then 1 else Mul(Product(s[..|s| - 1]), s[|s| - 1])
  }

  lemma ProductStep(s: seq<Scalar>, i: nat)
    requires i < |s|
    ensures Product(s[..i + 1]) == Mul(Product(s[..i]), s[i])
  {
    assert s[..i + 1][..i] == s[..i];
  }

  lemma {:induction false} ProductNonZero(s: seq<Scalar>)
    ensures Product(s) == 0 <==> 0 in s
  {
    hide Add, Mul, Sub;
    if s != [] {
      var k := |s| - 1;
      ProductNonZero(s[..k]);
      MulNonZero(Product(s[..k]), s[k]);
      assert s == s[..k] + [s[k]];
    }
  }

  /** x^-1 = p * (p x)^-1, and x * (p x)^-1 = p^-1 */
  lemma InverseStep(p: Scalar, x: Scalar)
    requires Mul(p, x) != 0
    ensures Mul(p, Inv(Mul(p, x))) == Inv(x) && Mul(Inv(Mul(p, x)), x) == Inv(p)
  {
    hide Add, Mul, Sub, Inv;
    var i := Inv(Mul(p, x));
    MulInv(Mul(p, x));
    MulAssoc(x, p, i);
    MulComm(x, p);
    InvUnique(x, Mul(p, i));
    MulAssoc(p, x, i);
    MulComm(i, x);
    InvUnique(p, Mul(i, x));
  }

  /** batch_inv: one inversion for the whole vector; false exactly when an entry is zero. */
  method BatchInv(out: array<Scalar>, input: array<Scalar>) returns (ok: bool)
    requires out.Length == input.Length && out != input
    modifies out
    ensures ok <==> 0 !in input[..]
    ensures ok ==> forall k :: 0 <= k < out.Length ==> out[k] == Inv(input[k])
  {
    hide Add, Mul, Sub, Inv, Product;
    var n := out.Length;
    ghost var s := input[..];
    var accumulator := 1;
    assert Product(s[..0]) == 1 by { EmptyProduct(s); }
    for i := 0 to n
      invariant accumulator == Product(s[..i])
      invariant forall k :: 0 <= k < i ==> out[k] == Product(s[..k])
    {
      ProductStep(s, i);
      out[i] := accumulator;
      accumulator := Mul(accumulator, input[i]);
    }
    assert s[..n] == s;
    ProductNonZero(s);
    if accumulator == 0 {
      return false;
    }
    accumulator := Inv(accumulator);
    for i := n downto 0
      invariant accumulator == Inv(Product(s[..i])) && Product(s[..i]) != 0
      invariant forall k :: 0 <= k < i ==> out[k] == Product(s[..k])
      invariant forall k :: i <= k < n ==> out[k] == Inv(s[k])
    {
      ProductStep(s, i);
      InverseStep(Product(s[..i]), s[i]);
      MulZero(s[i]);
      out[i] := Mul(out[i], accumulator);
      accumulator := Mul(accumulator, input[i]);
    }
    return true;
  }

  lemma EmptyProduct(s: seq<Scalar>)
    ensures Product(s[..0]) == 1
  {
  }

  // ---------- the quotient, value by value ----------

  /** (p_i - y) / (w_i - z) */
  function Regular(p: Scalar, x: Scalar, z: Scalar, y: Scalar): (r: Scalar) {
    Mul(Sub(p, y), Inv(Sub(x, z)))
  }

  /** (p_i - y) * w_i / (z * (z - w_i)), the share of point i in the value at z itself */
  function Share(p: Scalar, x: Scalar, z: Scalar, y: Scalar): (r: Scalar) {
    Mul(Mul(Sub(p, y), x), Inv(Mul(Sub(z, x), z)))
  }

  /** The shares of the points below k other than m, added up. */
  function Shares(evals: seq<Scalar>, roots: seq<Scalar>, z: Scalar, y: Scalar, m: nat, k: nat): (r: Scalar)
    requires |evals| == |roots| && k <= |evals|
  {
    if k == 0 then 0
    else if k - 1 == m then Shares(evals, roots, z, y, m, k - 1)
    else Add(Shares(evals, roots, z, y, m, k - 1), Share(evals[k - 1], roots[k - 1], z, y))
  }

  /** Inversion is impossible: z is a root that occurs twice, or a zero root among others. */
  ghost predicate Degenerate(roots: seq<Scalar>, z: Scalar) {
    exists i, j :: 0 <= i < |roots| && 0 <= j < |roots| && i != j && roots[i] == z && (z == 0 || roots[j] == z)
  }

  /** q holds the value of (f - y) / (X - z) at every root. */
  ghost predicate QuotientValues(q: seq<Scalar>, evals: seq<Scalar>, z: Scalar, y: Scalar, roots: seq<Scalar>)
    requires |evals| == |roots|
  {
    && |q| == |evals|
    && forall i :: 0 <= i < |q| ==>
         q[i] == if roots[i] == z then Shares(evals, roots, z, y, i, |evals|) else Regular(evals[i], roots[i], z, y)
  }

  lemma ZeroDenominator(roots: seq<Scalar>, z: Scalar, m: nat, d: seq<Scalar>)
    requires m < |roots| == |d| && roots[m] == z && d[m] == 1
    requires forall k :: 0 <= k < |d| && k != m ==> d[k] == Mul(Sub(z, roots[k]), z)
    ensures 0 in d <==> Degenerate(roots, z)
  {
    hide Add, Mul, Sub;
    forall i | 0 <= i < |roots| ensures Mul(Sub(z, roots[i]), z) == 0 <==> z == roots[i] || z == 0 {
      MulNonZero(Sub(z, roots[i]), z);
      SubZero(z, roots[i]);
    }
    if 0 in d {
      var k :| 0 <= k < |d| && d[k] == 0;
      assert roots[m] == z && (z == 0 || roots[k] == z);
    }
    if Degenerate(roots, z) {
      var i, j :| 0 <= i < |roots| && 0 <= j < |roots| && i != j && roots[i] == z && (z == 0 || roots[j] == z);
      var k := if i == m then j else i;
      assert d[k] == 0;
    }
  }

  /** First loop: numerators, denominators, and one past the last index where z is a root. */
  method Differences(evals: seq<Scalar>, z: Scalar, y: Scalar, roots: seq<Scalar>, q: array<Scalar>,
                     inversesIn: array<Scalar>)
    returns (m: nat)
    requires |roots| == |evals| == q.Length == inversesIn.Length && q != inversesIn
    modifies q, inversesIn
    ensures m <= |roots| && (m > 0 ==> roots[m - 1] == z) && (m == 0 ==> z !in roots)
    ensures forall k :: 0 <= k < |roots| ==> inversesIn[k] == if roots[k] == z then 1 else Sub(roots[k], z)
    ensures forall k :: 0 <= k < |roots| && roots[k] != z ==> q[k] == Sub(evals[k], y)
    ensures 0 !in inversesIn[..]
  {
    hide Add, Mul, Sub;
    m := 0;
    for i := 0 to |evals|
      invariant 0 <= m <= i && (m > 0 ==> roots[m - 1] == z)
      invariant m == 0 ==> forall k :: 0 <= k < i ==> roots[k] != z
      invariant forall k :: 0 <= k < i ==> inversesIn[k] == if roots[k] == z then 1 else Sub(roots[k], z)
      invariant forall k :: 0 <= k < i && roots[k] != z ==> q[k] == Sub(evals[k], y)
      invariant forall k :: 0 <= k < i ==> inversesIn[k] != 0
    {
      SubZero(roots[i], z);
      if z == roots[i] {
        m := i + 1;
        inversesIn[i] := 1;
      } else {
        q[i] := Sub(evals[i], y);
        inversesIn[i] := Sub(roots[i], z);
      }
    }
  }

  /** The value at the root z itself, summed into q[m]. */
  method SumShares(evals: seq<Scalar>, z: Scalar, y: Scalar, roots: seq<Scalar>, m: nat,
                   q: array<Scalar>, inverses: array<Scalar>, inversesIn: array<Scalar>)
    returns (ok: bool)
    requires |roots| == |evals| == q.Length == inverses.Length == inversesIn.Length
    requires q != inverses && q != inversesIn && inverses != inversesIn
    requires m < |roots| && roots[m] == z && inversesIn[m] == 1
    modifies q, inverses, inversesIn
    ensures ok <==> !Degenerate(roots, z)
    ensures ok ==> q[m] == Shares(evals, roots, z, y, m, |evals|)
    ensures forall k :: 0 <= k < q.Length && k != m ==> q[k] == old(q[k])
  {
    hide Add, Mul, Sub, Inv, Shares, Degenerate;
    var len := |evals|;
    q[m] := 0;
    for i := 0 to len
      modifies inversesIn
      invariant inversesIn[m] == 1
      invariant forall k :: 0 <= k < i && k != m ==> inversesIn[k] == Mul(Sub(z, roots[k]), z)
    {
      if i != m {
        inversesIn[i] := Mul(Sub(z, roots[i]), z);
      }
    }
    ZeroDenominator(roots, z, m, inversesIn[..]);
    ok := BatchInv(inverses, inversesIn);
    if !ok {
      return;
    }
    SharesStart(evals, roots, z, y, m);
    for i := 0 to len
      modifies q
      invariant forall k :: 0 <= k < len && k != m ==> q[k] == old(q[k])
      invariant q[m] == Shares(evals, roots, z, y, m, i)
    {
      SharesNext(evals, roots, z, y, m, i);
      if i != m {
        var tmp := Mul(Mul(Sub(evals[i], y), roots[i]), inverses[i]);
        q[m] := Add(q[m], tmp);
      }
    }
  }

  /** derive_quotient: no value exactly when the points are degenerate for z. */
  method DeriveQuotient(evals: seq<Scalar>, z: Scalar, y: Scalar, roots: seq<Scalar>) returns (r: Option<seq<Scalar>>)
    requires |roots| == |evals|
    ensures r.None? <==> Degenerate(roots, z)
    ensures r.Some? ==> QuotientValues(r.value, evals, z, y, roots)
  {
    hide Add, Mul, Sub, Inv, Shares, Degenerate;
    var len := |evals|;
    var inverses := new Scalar[len](_ => 0);
    var inversesIn := new Scalar[len](_ => 0);
    var q := new Scalar[len](_ => 0);
    var m := Differences(evals, z, y, roots, q, inversesIn);
    var ok := BatchInv(inverses, inversesIn);
    if !ok {
      return None;
    }
    for i := 0 to len
      modifies q
      invariant forall k :: 0 <= k < i && roots[k] != z ==> q[k] == Regular(evals[k], roots[k], z, y)
      invariant forall k :: i <= k < len && roots[k] != z ==> q[k] == Sub(evals[k], y)
    {
      q[i] := Mul(q[i], inverses[i]);
    }
    if m != 0 {
      ok := SumShares(evals, z, y, roots, m - 1, q, inverses, inversesIn);
      if !ok {
        return None;
      }
      OnlyPoint(roots, z, m - 1);
    } else {
      NotDegenerate(roots, z);
    }
    return Some(q[..]);
  }

  lemma SharesStart(evals: seq<Scalar>, roots: seq<Scalar>, z: Scalar, y: Scalar, m: nat)
    requires |evals| == |roots|
    ensures Shares(evals, roots, z, y, m, 0) == 0
  {
  }

  lemma SharesNext(evals: seq<Scalar>, roots: seq<Scalar>, z: Scalar, y: Scalar, m: nat, i: nat)
    requires |evals| == |roots| && i < |evals|
    ensures Shares(evals, roots, z, y, m, i + 1)
         == if i == m then Shares(evals, roots, z, y, m, i)
            else Add(Shares(evals, roots, z, y, m, i), Share(evals[i], roots[i], z, y))
  {
    hide Add, Mul, Sub, Inv;
  }

  lemma OnlyPoint(roots: seq<Scalar>, z: Scalar, m: nat)
    requires m < |roots| && roots[m] == z && !Degenerate(roots, z)
    ensures forall i :: 0 <= i < |roots| && roots[i] == z ==> i == m
  {
  }

  lemma NotDegenerate(roots: seq<Scalar>, z: Scalar)
    requires z !in roots
    ensures !Degenerate(roots, z)
  {
  }
}

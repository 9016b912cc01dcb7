/** The in-place radix-2 transform and its inverse (fft.cpp). */
module Fft {
  import opened Scalars
  import opened Polynomials
  import opened BitReversal

  // ---------- the transform as evaluation at the powers of a root ----------

  /** w generates the 2^m-th roots of unity: w^(n/2) = -1. */
  ghost predicate Primitive(w: Scalar, m: nat) {
    if m == 0 then w == 1 else Pow(w, Exp2(m - 1)) == Sub(0, 1)
  }

  /** The values of the polynomial `a` at 1, w, w^2, ... */
  function Dft(a: seq<Scalar>, w: Scalar): (r: seq<Scalar>)
    ensures |r| == |a|
  {
    seq(|a|, k requires 0 <= k < |a| => Eval(a, Pow(w, k)))
  }

  lemma NegMul(x: Scalar, y: Scalar)
    ensures Mul(Sub(0, x), y) == Sub(0, Mul(x, y))
  {
    hide Add, Mul, Sub;
    MulComm(Sub(0, x), y);
    MulSub(y, 0, x);
    MulZero(y);
    MulComm(x, y);
  }

  lemma AddNeg(y: Scalar, x: Scalar)
    ensures Add(y, Sub(0, x)) == Sub(y, x)
  {
    hide Add, Mul, Sub;
    AddAssoc(y, Sub(0, x), x);
    SubAdd(0, x);
    AddZero(y);
    SubUnique(y, x, Add(y, Sub(0, x)));
  }

  lemma MinusOne(x: Scalar)
    ensures Mul(Sub(0, 1), x) == Sub(0, x)
    ensures Mul(Sub(0, x), Sub(0, x)) == Mul(x, x)
  {
    hide Add, Mul, Sub;
    NegMul(1, x);
    MulOne(x);
    NegMul(x, Sub(0, x));
    MulComm(x, Sub(0, x));
    NegMul(x, x);
    SubSub(Mul(x, x));
  }

  lemma SubSub(x: Scalar)
    ensures Sub(0, Sub(0, x)) == x
  {
    hide Add, Mul, Sub;
    SubAdd(0, x);
    AddComm(Sub(0, x), x);
    SubUnique(0, Sub(0, x), x);
  }

  lemma PrimitiveSquare(w: Scalar, m: nat)
    requires Primitive(w, m) && m > 0
    ensures Primitive(Mul(w, w), m - 1)
  {
    hide Add, Mul, Sub;
    MulOne(w);
    MinusOne(1);
    MulOne(1);
    PowTwo(w);
    if m > 1 {
      PowMul(w, 2, Exp2(m - 2));
    }
  }

  lemma PowTwo(w: Scalar)
    ensures Pow(w, 2) == Mul(w, w) && Pow(w, 1) == w
  {
    hide Add, Mul, Sub;
    MulOne(w);
    assert Pow(w, 1) == Mul(w, Pow(w, 0));
    assert Pow(w, 2) == Mul(w, Pow(w, 1));
  }

  /** w^n = 1 */
  lemma PrimitivePeriod(w: Scalar, m: nat)
    requires Primitive(w, m)
    ensures Pow(w, Exp2(m)) == 1
  {
    hide Add, Mul, Sub;
    if m == 0 {
      PowTwo(1);
    } else {
      PowAdd(w, Exp2(m - 1), Exp2(m - 1));
      MinusOne(1);
      MulOne(1);
    }
  }

  lemma PrimitiveInverse(w: Scalar, v: Scalar, m: nat)
    requires Primitive(w, m) && Mul(w, v) == 1
    ensures Primitive(v, m)
  {
    hide Add, Mul, Sub;
    if m == 0 {
      MulOne(v);
    } else {
      var h := Exp2(m - 1);
      PowOfProduct(w, v, h);
      PowOne(h);
      MinusOne(Pow(v, h));
      SubSub(Pow(v, h));
    }
  }

  // ---------- one butterfly layer ----------

  /** The transform of a vector from those of its even and odd entries. */
  function Combine(e: seq<Scalar>, o: seq<Scalar>, w: Scalar): (r: seq<Scalar>)
    requires |e| == |o|
    ensures |r| == 2 * |e|
  {
    Plus(e, Twist(o, w)) + Minus(e, Twist(o, w))
  }

  lemma CombineDft(a: seq<Scalar>, w: Scalar, m: nat)
    requires |a| == Exp2(m) && m > 0 && Primitive(w, m)
    ensures |Evens(a)| == |Odds(a)|
    ensures Dft(a, w) == Combine(Dft(Evens(a), Mul(w, w)), Dft(Odds(a), Mul(w, w)), w)
  {
    hide Add, Mul, Sub, Eval, Pow, Combine, Dft;
    var h, ww := Exp2(m - 1), Mul(w, w);
    assert |a| == 2 * h && |Evens(a)| == |Odds(a)| == h;
    var e, o := Dft(Evens(a), ww), Dft(Odds(a), ww);
    forall k | 0 <= k < |a| ensures Dft(a, w)[k] == Combine(e, o, w)[k] {
      var c := if k < h then k else k - h;
      DftAt(a, w, k);
      DftAt(Evens(a), ww, c);
      DftAt(Odds(a), ww, c);
      CombineAt(e, o, w, c);
      if k < h {
        CombineLow(a, w, c);
      } else {
        CombineHigh(a, w, m, c);
      }
    }
  }

  lemma DftAt(a: seq<Scalar>, w: Scalar, k: nat)
    requires k < |a|
    ensures Dft(a, w)[k] == Eval(a, Pow(w, k))
  {
  }

  lemma CombineAt(e: seq<Scalar>, o: seq<Scalar>, w: Scalar, k: nat)
    requires k < |e| == |o|
    ensures Combine(e, o, w)[k] == Add(e[k], Mul(Pow(w, k), o[k]))
    ensures Combine(e, o, w)[|e| + k] == Sub(e[k], Mul(Pow(w, k), o[k]))
  {
    hide Add, Mul, Sub, Pow;
  }

  lemma CombineLow(a: seq<Scalar>, w: Scalar, k: nat)
    ensures var u := Pow(Mul(w, w), k);
            Eval(a, Pow(w, k)) == Add(Eval(Evens(a), u), Mul(Pow(w, k), Eval(Odds(a), u)))
  {
    hide Add, Mul, Sub, Eval, Pow, Evens, Odds;
    PowOfProduct(w, w, k);
    EvalEvenOdd(a, Pow(w, k));
  }

  lemma CombineHigh(a: seq<Scalar>, w: Scalar, m: nat, k: nat)
    requires m > 0 && Primitive(w, m)
    ensures var u := Pow(Mul(w, w), k);
            Eval(a, Pow(w, Exp2(m - 1) + k)) == Sub(Eval(Evens(a), u), Mul(Pow(w, k), Eval(Odds(a), u)))
  {
    hide Add, Mul, Sub, Eval, Pow, Evens, Odds;
    var x := Pow(w, k);
    PowOfProduct(w, w, k);
    PowAdd(w, Exp2(m - 1), k);
    MinusOne(x);
    EvalEvenOdd(a, Sub(0, x));
    var e, o := Eval(Evens(a), Mul(x, x)), Eval(Odds(a), Mul(x, x));
    NegMul(x, o);
    AddNeg(e, Mul(x, o));
  }

  // ---------- all layers ----------

  /** The entries of `a` in bit-reversed order, by halves. */
  function Reversed(a: seq<Scalar>, m: nat): (r: seq<Scalar>)
    requires |a| == Exp2(m)
    ensures |r| == |a|
    decreases m
  {
    if m == 0 then a else Reversed(Evens(a), m - 1) + Reversed(Odds(a), m - 1)
  }

  lemma ReversedUnfold(a: seq<Scalar>, m: nat)
    requires |a| == Exp2(m) && m > 0
    ensures var h := Exp2(m - 1);
            && |Evens(a)| == |Odds(a)| == h
            && Reversed(a, m)[..h] == Reversed(Evens(a), m - 1)
            && Reversed(a, m)[h..] == Reversed(Odds(a), m - 1)
  {
  }

  lemma {:induction false} ReversedAt(a: seq<Scalar>, m: nat, i: nat)
    requires |a| == Exp2(m) && i < |a|
    ensures Reversed(a, m)[i] == a[Rev(m, i)]
    decreases m
  {
    if m > 0 {
      hide *;
      ExpDouble(m);
      ReversedUnfold(a, m);
      SliceAt(Reversed(a, m), Exp2(m - 1), i);
      if i < Exp2(m - 1) {
        ReversedAt(Evens(a), m - 1, i);
        EvenSource(a, m, i);
      } else {
        ReversedAt(Odds(a), m - 1, i - Exp2(m - 1));
        OddSource(a, m, i - Exp2(m - 1));
      }
    }
  }

  lemma EvenSource(a: seq<Scalar>, m: nat, j: nat)
    requires m > 0 && |a| == Exp2(m) == 2 * Exp2(m - 1) && j < Exp2(m - 1)
    ensures a[Rev(m, j)] == Evens(a)[Rev(m - 1, j)]
  {
    hide Exp2;
    RevTop(m - 1, j);
    hide Rev;
  }

  lemma OddSource(a: seq<Scalar>, m: nat, j: nat)
    requires m > 0 && |a| == Exp2(m) == 2 * Exp2(m - 1) && j < Exp2(m - 1)
    ensures a[Rev(m, j + Exp2(m - 1))] == Odds(a)[Rev(m - 1, j)]
  {
    hide Exp2;
    RevTop(m - 1, j);
    hide Rev;
  }

  lemma SliceAt(s: seq<Scalar>, h: nat, i: nat)
    requires h <= |s| && i < |s|
    ensures s[i] == if i < h then s[..h][i] else s[h..][i - h]
  {
  }

  /** All the butterfly layers over a bit-reversed block. */
  function Layers(s: seq<Scalar>, d: nat, w: Scalar): (r: seq<Scalar>)
    requires |s| == Exp2(d)
    ensures |r| == |s|
    decreases d
  {
    if d == 0 then s
    else
      var h := Exp2(d - 1);
      Combine(Layers(s[..h], d - 1, Mul(w, w)), Layers(s[h..], d - 1, Mul(w, w)), w)
  }

  lemma LayersUnfold(s: seq<Scalar>, d: nat, w: Scalar)
    requires |s| == Exp2(d) && d > 0
    ensures var h := Exp2(d - 1);
            && |s| == 2 * h
            && Layers(s, d, w) == Combine(Layers(s[..h], d - 1, Mul(w, w)), Layers(s[h..], d - 1, Mul(w, w)), w)
  {
  }

  lemma {:induction false} LayersCorrect(a: seq<Scalar>, m: nat, w: Scalar)
    requires |a| == Exp2(m) && Primitive(w, m)
    ensures Layers(Reversed(a, m), m, w) == Dft(a, w)
    decreases m
  {
    hide Add, Mul, Sub;
    if m == 0 {
      assert a[1..] == [];
      MulZero(Pow(w, 0));
      AddZero(a[0]);
      assert Eval(a, Pow(w, 0)) == a[0];
    } else {
      PrimitiveSquare(w, m);
      hide Layers, Eval, Pow, Combine, Dft, Primitive, Reversed;
      LayersCorrect(Evens(a), m - 1, Mul(w, w));
      LayersCorrect(Odds(a), m - 1, Mul(w, w));
      ReversedUnfold(a, m);
      LayersUnfold(Reversed(a, m), m, w);
      CombineDft(a, w, m);
    }
  }

  // ---------- the array after some layers: blocks of equal size ----------

  /** n is a sum of blocks of the given size. */
  predicate Tiled(n: nat, size: nat)
    requires size > 0
  {
    n == 0 || (size <= n && Tiled(n - size, size))
  }

  /** Every block of 2^d entries transformed on its own. */
  function Blocks(s: seq<Scalar>, d: nat, w: Scalar): (r: seq<Scalar>)
    requires Tiled(|s|, Exp2(d))
    ensures |r| == |s|
    decreases |s|
  {
    if s == [] then []
    else Layers(s[..Exp2(d)], d, w) + Blocks(s[Exp2(d)..], d, w)
  }

  lemma {:induction false} TiledHalf(n: nat, size: nat)
    requires size > 0 && Tiled(n, 2 * size)
    ensures Tiled(n, size)
  {
    if n > 0 {
      TiledHalf(n - 2 * size, size);
      assert Tiled(n - size, size);
    }
  }

  lemma {:induction false} TiledExp(m: nat, d: nat)
    requires d <= m
    ensures Tiled(Exp2(m), Exp2(d))
    decreases m - d
  {
    if d == m {
      assert Tiled(0, Exp2(d));
    } else {
      TiledExp(m, d + 1);
      TiledHalf(Exp2(m), Exp2(d));
    }
  }

  lemma {:induction false} BlocksSingle(s: seq<Scalar>, w: Scalar)
    requires Tiled(|s|, 1)
    ensures Blocks(s, 0, w) == s
    decreases |s|
  {
    if s != [] {
      BlocksSingle(s[1..], w);
    }
  }

  lemma {:induction false} BlocksAppend(s: seq<Scalar>, t: seq<Scalar>, d: nat, w: Scalar)
    requires Tiled(|s|, Exp2(d)) && |t| == Exp2(d)
    ensures Tiled(|s + t|, Exp2(d))
    ensures Blocks(s + t, d, w) == Blocks(s, d, w) + Layers(t, d, w)
    decreases |s|
  {
    hide Layers, Exp2;
    var n := Exp2(d);
    if s == [] {
      assert s + t == t && t[..n] == t && t[n..] == [];
    } else {
      BlocksAppend(s[n..], t, d, w);
      assert (s + t)[..n] == s[..n] && (s + t)[n..] == s[n..] + t;
    }
  }

  // ---------- the loops ----------

  /** The vector with the block of 2 * half entries at i put through one butterfly. */
  ghost function Replaced(a: seq<Scalar>, i: nat, half: nat, w: Scalar): (r: seq<Scalar>)
    requires i + 2 * half <= |a|
  {
    a[..i] + Combine(a[i..i + half], a[i + half..i + 2 * half], w) + a[i + 2 * half..]
  }

  lemma ReplacedParts(x: seq<Scalar>, e: seq<Scalar>, o: seq<Scalar>, y: seq<Scalar>, w: Scalar)
    requires |e| == |o|
    ensures Replaced(x + (e + o + y), |x|, |e|, w) == x + Combine(e, o, w) + y
  {
    hide Combine;
    var a, i, h := x + (e + o + y), |x|, |e|;
    assert a[..i] == x && a[i..i + h] == e && a[i + h..i + 2 * h] == o && a[i + 2 * h..] == y;
  }

  /** Innermost loop: one block of the current layer (fft.cpp:43-57). */
  method Butterfly(a: array<Scalar>, roots: seq<Scalar>, i: nat, half: nat, step: nat, ghost w: Scalar)
    requires half > 0 && step > 0 && i + 2 * half <= a.Length
    requires half * step <= |roots|
    requires forall k :: 0 <= k < |roots| ==> roots[k] == Pow(w, k)
    modifies a
    ensures a[..] == Replaced(old(a[..]), i, half, Pow(w, step))
  {
    hide Add, Mul, Sub, Pow, Combine, Crossed;
    ghost var s, ws := a[..], Pow(w, step);
    var rootIndex := 0;
    for k := 0 to half
      invariant rootIndex == k * step
      invariant forall x :: 0 <= x < a.Length ==>
                  a[x] == if i <= x < i + k || i + half <= x < i + half + k then Crossed(s, i, half, ws, x) else s[x]
    {
      RootAt(w, half, step, k);
      CrossedPair(s, i, half, ws, k);
      var t := Mul(a[i + k + half], roots[rootIndex]);
      var u := a[i + k];
      a[i + k] := Add(u, t);
      a[i + k + half] := Sub(u, t);
      rootIndex := rootIndex + step;
    }
    ReplacedAll(s, i, half, ws);
  }

  /** Entry x of the block at i after the butterfly. */
  ghost function Crossed(s: seq<Scalar>, i: nat, half: nat, w: Scalar, x: nat): (r: Scalar)
    requires i + 2 * half <= |s| && x < |s|
  {
    if i <= x < i + half then Add(s[x], Mul(Pow(w, x - i), s[x + half]))
    else if i + half <= x < i + 2 * half then Sub(s[x - half], Mul(Pow(w, x - half - i), s[x]))
    else s[x]
  }

  lemma CrossedPair(s: seq<Scalar>, i: nat, half: nat, w: Scalar, k: nat)
    requires i + 2 * half <= |s| && k < half
    ensures Crossed(s, i, half, w, i + k) == Add(s[i + k], Mul(s[i + k + half], Pow(w, k)))
    ensures Crossed(s, i, half, w, i + k + half) == Sub(s[i + k], Mul(s[i + k + half], Pow(w, k)))
  {
    hide Add, Mul, Sub, Pow;
    MulComm(s[i + k + half], Pow(w, k));
  }

  lemma ReplacedAll(s: seq<Scalar>, i: nat, half: nat, w: Scalar)
    requires i + 2 * half <= |s|
    ensures |Replaced(s, i, half, w)| == |s|
    ensures forall x :: 0 <= x < |s| ==> Replaced(s, i, half, w)[x] == Crossed(s, i, half, w, x)
  {
    hide Add, Mul, Sub, Pow;
  }

  lemma RootAt(w: Scalar, half: nat, step: nat, k: nat)
    requires k < half
    ensures Pow(w, k * step) == Pow(Pow(w, step), k)
    ensures step > 0 ==> 0 <= k * step < half * step
    ensures (k + 1) * step == k * step + step
  {
    hide Add, Mul, Sub, Pow;
    PowMul(w, step, k);
    Commute(k, step);
    MulLess(k, half, step);
  }

  lemma MulLess(k: nat, half: nat, step: nat)
    requires k < half
    ensures 0 <= k * step <= half * step
    ensures step > 0 ==> k * step < half * step
  {
    MulGap(half - k, step);
    assert (half - k) * step == half * step - k * step;
  }

  lemma MulGap(x: nat, step: nat)
    ensures x * step >= 0
    ensures x > 0 && step > 0 ==> x * step > 0
  {
  }

  /** Middle loop: one layer over the whole array (fft.cpp:39-58). */
  method Layer(a: array<Scalar>, roots: seq<Scalar>, len: nat, ghost s: seq<Scalar>, ghost d: nat, ghost m: nat,
               ghost w: Scalar)
    requires 0 < d <= m && a.Length == |s| == |roots| == Exp2(m) && len == Exp2(d)
    requires forall k :: 0 <= k < |roots| ==> roots[k] == Pow(w, k)
    requires Tiled(|s|, Exp2(d - 1)) && a[..] == Blocks(s, d - 1, Pow(w, Exp2(m - d + 1)))
    modifies a
    ensures Tiled(|s|, Exp2(d)) && a[..] == Blocks(s, d, Pow(w, Exp2(m - d)))
  {
    hide *;
    LayerSizes(m, d, w);
    var n := a.Length;
    var half := len / 2;
    var step := n / len;
    ghost var ws, wp := Pow(w, Exp2(m - d)), Pow(w, Exp2(m - d + 1));
    var i := 0;
    NoBlocks(d, ws);
    assert s[..0] == [] && s[0..] == s;
    while i < n
      invariant i <= n && Tiled(i, len) && Tiled(n - i, len) && Tiled(n - i, half)
      invariant a[..] == Blocks(s[..i], d, ws) + Blocks(s[i..], d - 1, wp)
      decreases n - i
    {
      NextTile(n - i, len, half);
      ghost var done, t, rest := s[..i], s[i..i + len], s[i + len..];
      assert done + t == s[..i + len] && t + rest == s[i..];
      LayerStep(done, t, rest, d, ws);
      Butterfly(a, roots, i, half, step, w);
      i := i + len;
    }
    NoBlocks(d - 1, wp);
    assert s[..n] == s && s[n..] == [];
  }

  /** One butterfly moves a block from the part at half size to the finished part. */
  lemma LayerStep(done: seq<Scalar>, t: seq<Scalar>, rest: seq<Scalar>, d: nat, w: Scalar)
    requires 0 < d && |t| == Exp2(d) && Tiled(|done|, Exp2(d)) && Tiled(|rest|, Exp2(d - 1))
    ensures var half, wp := Exp2(d - 1), Mul(w, w);
            && |t| == 2 * half && Tiled(|done + t|, Exp2(d)) && Tiled(|t + rest|, half)
            && Replaced(Blocks(done, d, w) + Blocks(t + rest, d - 1, wp), |done|, half, w)
               == Blocks(done + t, d, w) + Blocks(rest, d - 1, wp)
  {
    hide *;
    ExpDouble(d);
    var half, wp := Exp2(d - 1), Mul(w, w);
    SplitBlock(t, rest, d, wp);
    AppendBlock(done, t, d, w);
    ReplacedParts(Blocks(done, d, w), Layers(t[..half], d - 1, wp), Layers(t[half..], d - 1, wp),
        Blocks(rest, d - 1, wp), w);
  }

  lemma LayerSizes(m: nat, d: nat, w: Scalar)
    requires 0 < d <= m
    ensures Exp2(d) == 2 * Exp2(d - 1)
    ensures Exp2(m) / Exp2(d) == Exp2(m - d)
    ensures Exp2(d - 1) * Exp2(m - d) <= Exp2(m)
    ensures Pow(w, Exp2(m - d + 1)) == Mul(Pow(w, Exp2(m - d)), Pow(w, Exp2(m - d)))
    ensures Tiled(Exp2(m), Exp2(d))
  {
    hide Add, Mul, Sub, Pow, Tiled;
    ExpSplit(m, d);
    ExpHalf(m, d);
    PowAdd(w, Exp2(m - d), Exp2(m - d));
    TiledExp(m, d);
  }

  lemma NoBlocks(d: nat, w: Scalar)
    ensures Tiled(0, Exp2(d)) && Blocks([], d, w) == []
  {
  }

  lemma NextTile(n: nat, len: nat, half: nat)
    requires n > 0 && half > 0 && len == 2 * half && Tiled(n, len) && Tiled(n, half)
    ensures len <= n && Tiled(n - len, len) && Tiled(n - len, half)
  {
    assert Tiled(n - half, half);
  }

  /** At half size a block counts as two. */
  lemma SplitBlock(t: seq<Scalar>, rest: seq<Scalar>, d: nat, w: Scalar)
    requires d > 0 && |t| == Exp2(d) && Tiled(|rest|, Exp2(d - 1))
    ensures var h := Exp2(d - 1);
            && |t| == 2 * h && Tiled(|t + rest|, h)
            && Blocks(t + rest, d - 1, w) ==
                Layers(t[..h], d - 1, w) + Layers(t[h..], d - 1, w) + Blocks(rest, d - 1, w)
  {
    hide *;
    ExpDouble(d);
    var h := Exp2(d - 1);
    var x, y := t[..h], t[h..];
    PrependBlock(y, rest, d - 1, w);
    PrependBlock(x, y + rest, d - 1, w);
    assert x + (y + rest) == t + rest;
  }

  lemma ExpDouble(d: nat)
    requires d > 0
    ensures Exp2(d) == 2 * Exp2(d - 1)
  {
  }

  lemma PrependBlock(t: seq<Scalar>, rest: seq<Scalar>, d: nat, w: Scalar)
    requires |t| == Exp2(d) && Tiled(|rest|, Exp2(d))
    ensures Tiled(|t + rest|, Exp2(d)) && Blocks(t + rest, d, w) == Layers(t, d, w) + Blocks(rest, d, w)
  {
    hide Layers, Exp2;
    assert (t + rest)[..|t|] == t && (t + rest)[|t|..] == rest;
  }

  /** At full size it is the combination of its halves. */
  lemma AppendBlock(s: seq<Scalar>, t: seq<Scalar>, d: nat, w: Scalar)
    requires d > 0 && Tiled(|s|, Exp2(d)) && |t| == Exp2(d)
    ensures var h := Exp2(d - 1);
            && |t| == 2 * h && Tiled(|s + t|, Exp2(d))
            && Blocks(s + t, d, w)
               == Blocks(s, d, w) + Combine(Layers(t[..h], d - 1, Mul(w, w)), Layers(t[h..], d - 1, Mul(w, w)), w)
  {
    hide Add, Mul, Sub, Combine, Blocks, Layers, Exp2, Tiled;
    LayersUnfold(t, d, w);
    BlocksAppend(s, t, d, w);
  }

  lemma {:induction false} ExpSplit(m: nat, d: nat)
    requires d <= m
    ensures Exp2(m) == Exp2(m - d) * Exp2(d)
    ensures Exp2(m) / Exp2(d) == Exp2(m - d)
  {
    if d > 0 {
      ExpSplit(m - 1, d - 1);
      assert Exp2(m - d) * Exp2(d) == 2 * (Exp2(m - d) * Exp2(d - 1));
    }
    ModUnique(Exp2(d), Exp2(m), Exp2(m - d), 0);
  }

  lemma ExpHalf(m: nat, d: nat)
    requires 0 < d <= m
    ensures Exp2(d - 1) * Exp2(m - d) <= Exp2(m)
  {
    ExpSplit(m, d);
    assert Exp2(m - d) * (2 * Exp2(d - 1)) == 2 * (Exp2(d - 1) * Exp2(m - d));
  }

  /** fft_in_place: the array becomes the values of its polynomial at the powers of w. */
  method FftInPlace(a: array<Scalar>, roots: seq<Scalar>, ghost m: nat, ghost w: Scalar)
    requires a.Length == |roots| == Exp2(m) && Primitive(w, m)
    requires forall k :: 0 <= k < |roots| ==> roots[k] == Pow(w, k)
    modifies a
    ensures a[..] == Dft(old(a[..]), w)
  {
    hide Add, Mul, Sub, Pow, Layers, Tiled, Blocks, Reversed, Dft, Rev, Primitive;
    var n := a.Length;
    ghost var s := Reversed(a[..], m);
    Permute(a, m);
    forall k | 0 <= k < n ensures a[k] == s[k] {
      ReversedAt(old(a[..]), m, k);
    }
    assert a[..] == s;
    ghost var d := 1;
    TiledExp(m, 0);
    BlocksSingle(s, Pow(w, Exp2(m)));
    var len := 2;
    while len <= n
      invariant 1 <= d <= m + 1 && len == Exp2(d)
      invariant Tiled(n, Exp2(d - 1)) && a[..] == Blocks(s, d - 1, Pow(w, Exp2(m - d + 1)))
      decreases m - d
    {
      ExpMonotone(m, d);
      Layer(a, roots, len, s, d, m, w);
      len := len * 2;
      d := d + 1;
    }
    ExpMonotone(m, d);
    PowTwo(w);
    OneBlock(s, m, w);
    LayersCorrect(old(a[..]), m, w);
  }

  lemma OneBlock(s: seq<Scalar>, m: nat, w: Scalar)
    requires |s| == Exp2(m)
    ensures Tiled(|s|, |s|) && Blocks(s, m, w) == Layers(s, m, w)
  {
    hide Layers;
    assert Tiled(0, |s|);
    assert s[..|s|] == s && s[|s|..] == [];
  }

  lemma {:induction false} ExpMonotone(m: nat, d: nat)
    ensures Exp2(d) <= Exp2(m) <==> d <= m
  {
    if m > 0 && d > 0 {
      ExpMonotone(m - 1, d - 1);
    }
  }
}

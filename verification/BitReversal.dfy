/** The bit-reversal permutation that precedes the butterflies (fft.cpp:28-36). */
module BitReversal {

  function Exp2(m: nat): (r: nat)
    ensures r >= 1
  {
    if m == 0 then 1 else 2 * Exp2(m - 1)
  }

  /** The number whose m binary digits are those of i in reverse. */
  function Rev(m: nat, i: nat): (r: nat)
    requires i < Exp2(m)
    ensures r < Exp2(m)
  {
    if m == 0 then 0
    else if i % 2 == 1 then Exp2(m - 1) + Rev(m - 1, i / 2)
    else Rev(m - 1, i / 2)
  }

  /** The same digits read from the other end. */
  lemma {:induction false} RevTop(m: nat, i: nat)
    requires i < Exp2(m)
    ensures Rev(m + 1, i) == 2 * Rev(m, i)
    ensures Rev(m + 1, i + Exp2(m)) == 2 * Rev(m, i) + 1
  {
    if m > 0 {
      RevTop(m - 1, i / 2);
      assert (i + Exp2(m)) / 2 == i / 2 + Exp2(m - 1) && (i + Exp2(m)) % 2 == i % 2;
    }
  }

  /** Reversing twice is the identity. */
  lemma {:induction false} RevInvolution(m: nat, i: nat)
    requires i < Exp2(m)
    ensures Rev(m, Rev(m, i)) == i
  {
    if m > 0 {
      var j := Rev(m - 1, i / 2);
      RevInvolution(m - 1, i / 2);
      RevTop(m - 1, j);
    }
  }

  predicate BitSet(j: nat, bit: nat)
    requires bit > 0
  {
    (j / bit) % 2 == 1
  }

  /** j ^ bit for a power of two */
  function Flip(j: nat, bit: nat): (r: int)
    requires bit > 0
  {
    if BitSet(j, bit) then j - bit else j + bit
  }

  lemma TopBit(j: nat, bit: nat)
    requires 0 < bit && j < 2 * bit
    ensures BitSet(j, bit) <==> bit <= j
  {
    if bit <= j {
      assert j / bit == 1;
    } else {
      assert j / bit == 0;
    }
  }

  /** Adding one to y, seen from the reversed side: a set top bit is cleared and carries on. */
  lemma CarryStep(d: nat, y: nat)
    requires d > 0 && y + 1 < Exp2(d)
    ensures BitSet(Rev(d, y), Exp2(d - 1)) <==> y % 2 == 1
    ensures y % 2 == 0 ==> Rev(d, y + 1) == Rev(d, y) + Exp2(d - 1)
    ensures y % 2 == 1 ==>
              && d > 1 && Exp2(d - 1) / 2 == Exp2(d - 2)
              && y / 2 + 1 < Exp2(d - 1)
              && Rev(d - 1, y / 2) == Rev(d, y) - Exp2(d - 1)
              && Rev(d - 1, y / 2 + 1) == Rev(d, y + 1)
  {
    TopBit(Rev(d, y), Exp2(d - 1));
    assert y % 2 == 0 ==> (y + 1) / 2 == y / 2;
    assert y % 2 == 1 ==> (y + 1) / 2 == y / 2 + 1;
  }

  /** The reversed counter: carries run from the top bit down. */
  method Increment(n: nat, j0: nat, ghost m: nat, ghost i: nat) returns (j: nat)
    requires n == Exp2(m) && i + 1 < n && j0 == Rev(m, i)
    ensures j == Rev(m, i + 1)
  {
    assert n / 2 == Exp2(m - 1);
    hide Rev, Exp2, BitSet;
    j := j0;
    var bit := n / 2;
    ghost var d: nat, y: nat := m, i;
    while BitSet(j, bit)
      invariant 0 < d <= m && bit == Exp2(d - 1)
      invariant y + 1 < Exp2(d) && j == Rev(d, y) && Rev(m, i + 1) == Rev(d, y + 1)
      decreases d
    {
      CarryStep(d, y);
      j := Flip(j, bit);
      bit := bit / 2;
      d, y := d - 1, y / 2;
    }
    CarryStep(d, y);
    j := Flip(j, bit);
  }

  /** Where entry k comes from once the places below i have been dealt with. */
  ghost function Source(m: nat, i: nat, k: nat): (r: nat)
    requires k < Exp2(m)
    ensures r < Exp2(m)
  {
    if k < i || Rev(m, k) < i then Rev(m, k) else k
  }

  /** Dealing with place i exchanges what i and Rev(i) hold, if i comes first. */
  lemma SourceStep(m: nat, i: nat, k: nat)
    requires i < Exp2(m) && k < Exp2(m)
    ensures var j := Rev(m, i);
            Source(m, i + 1, k) == Source(m, i, if i < j && k == i then j else if i < j && k == j then i else k)
  {
    hide Exp2, Rev;
    RevInvolution(m, i);
    RevInvolution(m, k);
  }

  /** Moves entry i to place Rev(i), each pair swapped once. */
  method Permute<T>(a: array<T>, ghost m: nat)
    requires a.Length == Exp2(m)
    modifies a
    ensures forall k :: 0 <= k < a.Length ==> a[k] == old(a[Rev(m, k)])
  {
    hide Rev, Exp2, Source, Sourced;
    var n := a.Length;
    var j := 0;
    ghost var was := a[..];
    RevZero(m);
    SourcedFirst(m, was);
    for i := 1 to n
      invariant j == Rev(m, i - 1) && Sourced(m, i, was, a[..])
    {
      SourcedStep(m, i, was, a[..]);
      ghost var now := a[..];
      j := Increment(n, j, m, i - 1);
      if i < j {
        a[i], a[j] := a[j], a[i];
        assert a[..] == now[i := now[j]][j := now[i]];
      }
    }
    SourcedLast(m, was, a[..]);
  }

  /** now is was with every place k filled from Source(i, k). */
  ghost predicate Sourced<T>(m: nat, i: nat, was: seq<T>, now: seq<T>)
  {
    |was| == |now| == Exp2(m) && forall k :: 0 <= k < |was| ==> now[k] == was[Source(m, i, k)]
  }

  lemma SourcedFirst<T>(m: nat, was: seq<T>)
    requires |was| == Exp2(m)
    ensures Sourced(m, 1, was, was)
  {
    forall k | 0 <= k < |was| ensures Source(m, 1, k) == k {
      SourceFirst(m, k);
    }
  }

  /** One turn of the loop, from place i to i + 1. */
  lemma SourcedStep<T>(m: nat, i: nat, was: seq<T>, now: seq<T>)
    requires i < Exp2(m) && Sourced(m, i, was, now)
    ensures var j := Rev(m, i);
            j < Exp2(m) && Sourced(m, i + 1, was, if i < j then now[i := now[j]][j := now[i]] else now)
  {
    RevInvolution(m, i);
    var j := Rev(m, i);
    var after := if i < j then now[i := now[j]][j := now[i]] else now;
    hide Rev, Exp2, Source;
    forall k | 0 <= k < |was|
      ensures after[k] == was[Source(m, i + 1, k)]
    {
      SourceStep(m, i, k);
    }
  }

  lemma SourcedLast<T>(m: nat, was: seq<T>, now: seq<T>)
    requires Sourced(m, Exp2(m), was, now)
    ensures |now| == |was| == Exp2(m) && forall k :: 0 <= k < |was| ==> now[k] == was[Rev(m, k)]
  {
    hide Rev, Exp2, Source;
    forall k | 0 <= k < |was| ensures Source(m, Exp2(m), k) == Rev(m, k) {
      SourceLast(m, k);
    }
  }

  lemma SourceFirst(m: nat, k: nat)
    requires k < Exp2(m)
    ensures Source(m, 1, k) == k
  {
    hide Rev, Exp2;
    RevZero(m);
    RevInvolution(m, k);
  }

  lemma SourceLast(m: nat, k: nat)
    requires k < Exp2(m)
    ensures Source(m, Exp2(m), k) == Rev(m, k)
  {
  }

  lemma {:induction false} RevZero(m: nat)
    ensures Rev(m, 0) == 0
  {
    if m > 0 {
      RevZero(m - 1);
    }
  }
}

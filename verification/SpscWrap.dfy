/** Exactly when the queue of src/spsc.rs survives the wrap of its counters. */
module SpscWrap {
  import opened Options
  import opened Scalars
  import opened Spsc

  lemma {:induction false} RunConcat<T>(q: Queue<T>, es: seq<Event<T>>, fs: seq<Event<T>>)
    ensures Run(q, es + fs) == Run(Run(q, es), fs)
    decreases |fs|
  {
    hide Step;
    if fs == [] {
      assert es + fs == es;
    } else {
      var gs := fs[..|fs| - 1];
      assert (es + fs)[..|es + fs| - 1] == es + gs;
      RunConcat(q, es, gs);
    }
  }

  lemma RunFour<T>(q: Queue<T>, a: Event<T>, b: Event<T>, c: Event<T>, d: Event<T>)
    ensures Run(q, [a, b, c, d]) == Step(Step(Step(Step(q, a), b), c), d)
  {
    hide Step;
    assert [a, b, c, d][..3] == [a, b, c] && [a, b, c][..2] == [a, b] && [a, b][..1] == [a] && [a][..0] == [];
    assert Run(q, [a]) == Step(q, a);
    assert Run(q, [a, b]) == Step(Run(q, [a]), b);
    assert Run(q, [a, b, c]) == Step(Run(q, [a, b]), c);
  }

  /** A whole push, and a whole pop, that see the newest counters. */
  function PushOf<T>(v: T, heads: nat): seq<Event<T>>
  {
    [LoadOwnTail(v), LoadHead(heads), WriteSlot, StoreTail]
  }

  function PopOf<T>(tails: nat): seq<Event<T>>
  {
    [LoadOwnHead, LoadTail(tails), TakeSlot, StoreHead]
  }

  /** Nobody is active, n items were popped and t pushed. */
  ghost predicate Quiet<T>(q: Queue<T>, n: nat, t: nat)
  {
    && q.producer.Ready? && q.consumer.Waiting?
    && |q.pushed| == t && |q.popped| == n
    && |q.heads| == n + 1 && Last(q.heads) == Mod(q.words, n)
    && |q.tails| == t + 1 && Last(q.tails) == Mod(q.words, t)
    && q.seenHead <= n && q.seenTail <= t
  }

  lemma PushWrites<T>(q: Queue<T>, n: nat, t: nat, v: T)
    requires 0 < |q.buffer| < q.words && Quiet(q, n, t) && n <= t < n + |q.buffer|
    ensures Step(Step(Step(q, LoadOwnTail(v)), LoadHead(n)), WriteSlot)
            == q.(buffer := q.buffer[Slot(q.words, |q.buffer|, t) := Some(v)], producer := Wrote(v, Mod(q.words, t)),
                 seenHead := n)
  {
    hide Mod;
    var q1 := q.(producer := SawTail(v, Mod(q.words, t)));
    var q2 := q.(producer := SawHead(v, Mod(q.words, t), Mod(q.words, n)), seenHead := n);
    assert Step(q, LoadOwnTail(v)) == q1 && Step(q1, LoadHead(n)) == q2;
    ModDifference(q.words, t, n);
  }

  lemma PushQuiet<T>(q: Queue<T>, n: nat, t: nat, v: T)
    requires 0 < |q.buffer| < q.words && Quiet(q, n, t) && n <= t < n + |q.buffer|
    ensures var r := Run(q, PushOf(v, n));
            && Quiet(r, n, t + 1) && r.words == q.words && r.popped == q.popped && r.pushed == q.pushed + [v]
            && r.buffer == q.buffer[Slot(q.words, |q.buffer|, t) := Some(v)]
  {
    hide Mod, Run, Slot;
    RunFour(q, LoadOwnTail(v), LoadHead(n), WriteSlot, StoreTail);
    PushWrites(q, n, t, v);
    ModStep(q.words, t);
  }

  lemma PopTakes<T>(q: Queue<T>, n: nat, t: nat)
    requires 0 < |q.buffer| < q.words && Quiet(q, n, t) && n < t <= n + |q.buffer|
    ensures var i := Slot(q.words, |q.buffer|, n);
            Step(Step(Step(q, LoadOwnHead), LoadTail(t)), TakeSlot)
            == q.(buffer := q.buffer[i := None], consumer := Took(Mod(q.words, n), q.buffer[i]), seenTail := t)
  {
    hide Mod;
    var q1 := q.(consumer := GotHead(Mod(q.words, n)));
    var q2 := q.(consumer := GotTail(Mod(q.words, n), Mod(q.words, t)), seenTail := t);
    assert Step(q, LoadOwnHead) == q1 && Step(q1, LoadTail(t)) == q2;
    ModDifference(q.words, t, n);
  }

  lemma PopQuiet<T>(q: Queue<T>, n: nat, t: nat)
    requires 0 < |q.buffer| < q.words && Quiet(q, n, t) && n < t <= n + |q.buffer|
    ensures var r, i := Run(q, PopOf(t)), Slot(q.words, |q.buffer|, n);
            && Quiet(r, n + 1, t) && r.words == q.words && r.pushed == q.pushed
            && r.popped == q.popped + [q.buffer[i]] && r.buffer == q.buffer[i := None]
  {
    hide Mod, Run, Slot;
    RunFour(q, LoadOwnHead, LoadTail(t), TakeSlot, StoreHead);
    PopTakes(q, n, t);
    ModStep(q.words, n);
  }

  /** n times: push a, pop it. */
  lemma {:induction false} Pairs<T>(words: Positive, cap: Positive, a: T, n: nat) returns (es: seq<Event<T>>)
    requires cap < words
    ensures var q := Run(Init(words, cap), es);
            q.words == words && |q.buffer| == cap && Quiet(q, n, n)
  {
    hide Mod, Slot;
    if n == 0 {
      es := [];
      ModSmall(words, 0);
    } else {
      var before := Pairs(words, cap, a, n - 1);
      var q := Run(Init(words, cap), before);
      PushQuiet(q, n - 1, n - 1, a);
      PopQuiet(Run(q, PushOf(a, n - 1)), n - 1, n);
      RunConcat(q, PushOf(a, n - 1), PopOf(n));
      es := before + (PushOf(a, n - 1) + PopOf(n));
      RunConcat(Init(words, cap), before, PushOf(a, n - 1) + PopOf(n));
    }
  }

  /** Then m pushes of a. */
  lemma {:induction false} Fill<T>(words: Positive, cap: Positive, a: T, n: nat, m: nat) returns (es: seq<Event<T>>)
    requires m <= cap < words
    ensures var q := Run(Init(words, cap), es);
            && q.words == words && |q.buffer| == cap && Quiet(q, n, n + m)
            && forall k :: n <= k < n + m ==> q.pushed[k] == a
  {
    hide Mod, Slot;
    if m == 0 {
      es := Pairs(words, cap, a, n);
    } else {
      var before := Fill(words, cap, a, n, m - 1);
      var q := Run(Init(words, cap), before);
      PushQuiet(q, n, n + m - 1, a);
      es := before + PushOf(a, n);
      RunConcat(Init(words, cap), before, PushOf(a, n));
    }
  }

  /** Then b, which lands in slot zero. */
  lemma Wrap<T>(words: Positive, cap: Positive, a: T, b: T) returns (es: seq<Event<T>>)
    requires cap < words && Mod(cap, words) != 0
    ensures var q := Run(Init(words, cap), es);
            && q.words == words && |q.buffer| == cap && Quiet(q, words - cap + 1, words + 1)
            && q.buffer[0] == Some(b) && q.pushed[words - Mod(cap, words)] == a
  {
    hide Mod, Slot, Run, PopOf, PushOf, Init;
    var n := words - cap + 1;
    var before := Fill(words, cap, a, n, cap - 1);
    PushQuiet(Run(Init(words, cap), before), n, words, b);
    SlotOfWrap(words, cap);
    es := before + PushOf(b, n);
    RunConcat(Init(words, cap), before, PushOf(b, n));
  }

  /** Then the pops up to count h. */
  lemma {:induction false} Spoil<T>(words: Positive, cap: Positive, a: T, b: T, h: nat) returns (es: seq<Event<T>>)
    requires cap < words && Mod(cap, words) != 0
    requires words - cap < h <= words - Mod(cap, words)
    ensures var q := Run(Init(words, cap), es);
            && q.words == words && |q.buffer| == cap && Quiet(q, h, words + 1)
            && q.buffer[0] == Some(b) && q.pushed[words - Mod(cap, words)] == a
    decreases h
  {
    hide Mod, Slot, Run, Quiet, PopOf, PushOf, Init;
    if h == words - cap + 1 {
      es := Wrap(words, cap, a, b);
    } else {
      var before := Spoil(words, cap, a, b, h - 1);
      var q := Run(Init(words, cap), before);
      PopQuiet(q, h - 1, words + 1);
      ZeroSlot(words, cap);
      SlotsDiffer(words, cap, h - 1, words - Mod(cap, words));
      es := before + PopOf(words + 1);
      RunConcat(Init(words, cap), before, PopOf(words + 1));
    }
  }

  /** The count that wraps goes to slot zero, and so did an earlier one that may still be there. */
  lemma SlotOfWrap(words: Positive, cap: Positive)
    ensures Slot(words, cap, words) == 0
  {
    hide Mod;
    ModShift(words, 0, 1);
    ModSmall(words, 0);
    ModSmall(cap, 0);
  }

  lemma ZeroSlot(words: Positive, cap: Positive)
    requires cap < words
    ensures Slot(words, cap, words - Mod(cap, words)) == 0
  {
    hide Mod, Slot;
    var k := words - Mod(cap, words);
    if Mod(cap, words) == 0 {
      SlotOfWrap(words, cap);
    } else {
      SlotIs(words, cap, k);
      var d := ModSplit(cap, words);
      ModShift(cap, 0, d);
      ModSmall(cap, 0);
    }
  }

  /** A capacity that does not divide the number of counter values loses the order. */
  lemma WrapBreaks<T>(words: Positive, cap: Positive, a: T, b: T) returns (es: seq<Event<T>>)
    requires cap < words && Mod(cap, words) != 0 && a != b
    ensures !Fifo(Run(Init(words, cap), es))
  {
    hide Mod, Slot;
    var k := words - Mod(cap, words);
    var before := Spoil(words, cap, a, b, k);
    var q := Run(Init(words, cap), before);
    ZeroSlot(words, cap);
    PopQuiet(q, k, words + 1);
    es := before + PopOf(words + 1);
    RunConcat(Init(words, cap), before, PopOf(words + 1));
    var r := Run(Init(words, cap), es);
    assert r.popped[k] == Some(b) && r.pushed[k] == a;
  }

  /** The queue is first in, first out on every run if and only if its capacity is zero or divides the
      number of counter values. */
  lemma FifoIff<T>(words: Positive, cap: nat, a: T, b: T)
    requires cap < words && a != b
    ensures (forall es: seq<Event<T>> :: Fifo(Run(Init(words, cap), es))) <==> cap == 0 || Mod(cap, words) == 0
  {
    hide Run, Mod;
    if cap == 0 || Mod(cap, words) == 0 {
      forall es: seq<Event<T>>
        ensures Fifo(Run(Init(words, cap), es))
      {
        RunSafe(words, cap, es);
      }
    } else {
      var es := WrapBreaks(words, cap, a, b);
    }
  }
}

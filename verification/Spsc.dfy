/** The lock-free queue between one producer and one consumer (src/spsc.rs), as a system of steps.
    Each atomic load or store and each slot access is one step, and the steps of the two threads mix
    freely. A load of the other side's counter may return any value of its history that is not older
    than the one this thread saw last. */
module Spsc {
  import opened Options
  import opened Scalars

  type Positive = x: int | x > 0 witness 1

  datatype Producer<T> =
    | Ready
    | SawTail(value: T, tail: nat)
    | SawHead(value: T, tail: nat, head: nat)
    | Wrote(value: T, tail: nat)
    | PushPanic
  datatype Consumer<T> =
    | Waiting
    | GotHead(head: nat)
    | GotTail(head: nat, tail: nat)
    | Took(head: nat, item: Option<T>)
    | PopPanic

  /** `words` is the number of usize values; `heads` and `tails` are all values of the two counters. */
  datatype Queue<T> = Queue(
    words: Positive,
    buffer: seq<Option<T>>,
    heads: seq<nat>,
    tails: seq<nat>,
    producer: Producer<T>,
    consumer: Consumer<T>,
    seenHead: nat,
    seenTail: nat,
    pushed: seq<T>,
    popped: seq<Option<T>>)

  datatype Event<T> =
    | LoadOwnTail(value: T)
    | LoadHead(at: nat)
    | WriteSlot
    | StoreTail
    | LoadOwnHead
    | LoadTail(at: nat)
    | TakeSlot
    | StoreHead

  function Empty<T>(n: nat): (r: seq<Option<T>>)
    ensures |r| == n && forall i :: 0 <= i < n ==> r[i] == None
  {
    if n == 0 then [] else Empty(n - 1) + [None]
  }

  function Init<T>(words: Positive, capacity: nat): Queue<T>
  {
    Queue(words, Empty(capacity), [0], [0], Ready, Waiting, 0, 0, [], [])
  }

  function Last(s: seq<nat>): nat
  {
    if s == [] then 0 else s[|s| - 1]
  }

  function WrappingAdd(words: Positive, a: nat, b: nat): nat
  {
    Mod(words, a + b)
  }

  function WrappingSub(words: Positive, a: nat, b: nat): nat
  {
    Mod(words, a - b)
  }

  /** One step of push; an event that is not due changes nothing. */
  function PushStep<T>(q: Queue<T>, e: Event<T>): Queue<T>
  {
    match e
    case LoadOwnTail(v) =>
      if q.producer.Ready? then q.(producer := SawTail(v, Last(q.tails))) else q
    case LoadHead(k) =>
      if q.producer.SawTail? && q.seenHead <= k < |q.heads| then
        q.(producer := SawHead(q.producer.value, q.producer.tail, q.heads[k]), seenHead := k)
      else q
    case WriteSlot =>
      if !q.producer.SawHead? then q
      else if WrappingSub(q.words, q.producer.tail, q.producer.head) == |q.buffer| then q.(producer := Ready)
      else if |q.buffer| == 0 then q.(producer := PushPanic)
      else
        q.(buffer := q.buffer[Mod(|q.buffer|, q.producer.tail) := Some(q.producer.value)],
           producer := Wrote(q.producer.value, q.producer.tail))
    case StoreTail =>
      if !q.producer.Wrote? then q
      else
        q.(tails := q.tails + [WrappingAdd(q.words, q.producer.tail, 1)],
           pushed := q.pushed + [q.producer.value],
           producer := Ready)
    case _ => q
  }

  /** One step of pop. */
  function PopStep<T>(q: Queue<T>, e: Event<T>): Queue<T>
  {
    match e
    case LoadOwnHead =>
      if q.consumer.Waiting? then q.(consumer := GotHead(Last(q.heads))) else q
    case LoadTail(k) =>
      if q.consumer.GotHead? && q.seenTail <= k < |q.tails| then
        q.(consumer := GotTail(q.consumer.head, q.tails[k]), seenTail := k)
      else q
    case TakeSlot =>
      if !q.consumer.GotTail? then q
      else if q.consumer.head == q.consumer.tail then q.(consumer := Waiting)
      else if |q.buffer| == 0 then q.(consumer := PopPanic)
      else
        q.(buffer := q.buffer[Mod(|q.buffer|, q.consumer.head) := None],
           consumer := Took(q.consumer.head, q.buffer[Mod(|q.buffer|, q.consumer.head)]))
    case StoreHead =>
      if !q.consumer.Took? then q
      else
        q.(heads := q.heads + [WrappingAdd(q.words, q.consumer.head, 1)],
           popped := q.popped + [q.consumer.item],
           consumer := Waiting)
    case _ => q
  }

  function Step<T>(q: Queue<T>, e: Event<T>): Queue<T>
  {
    if e.LoadOwnTail? || e.LoadHead? || e.WriteSlot? || e.StoreTail? then PushStep(q, e) else PopStep(q, e)
  }

  function Run<T>(q: Queue<T>, es: seq<Event<T>>): Queue<T>
  {
    if es == [] then q else Step(Run(q, es[..|es| - 1]), es[|es| - 1])
  }

  /** The producer is about to write, the consumer about to take. */
  predicate Writing<T>(q: Queue<T>)
  {
    q.producer.SawHead? && WrappingSub(q.words, q.producer.tail, q.producer.head) != |q.buffer|
  }

  predicate Taking<T>(q: Queue<T>)
  {
    q.consumer.GotTail? && q.consumer.head != q.consumer.tail
  }

  /** First in, first out, with nothing lost or made up. */
  ghost predicate Fifo<T>(q: Queue<T>)
  {
    && |q.popped| <= |q.pushed|
    && forall i :: 0 <= i < |q.popped| ==> q.popped[i] == Some(q.pushed[i])
  }

  /** What the queue promises: first in first out, never more items than slots, no panic, a written
      slot is empty, a taken slot is full, the two sides are never at one slot, "full" and "empty"
      are reported only for a count that was full or empty. */
  ghost predicate Safe<T>(q: Queue<T>)
  {
    && Fifo(q)
    && |q.pushed| <= |q.popped| + |q.buffer|
    && !q.producer.PushPanic? && !q.consumer.PopPanic?
    && (Writing(q) ==> |q.buffer| > 0 && q.buffer[Mod(|q.buffer|, q.producer.tail)] == None)
    && (Taking(q) ==> |q.buffer| > 0 && q.buffer[Mod(|q.buffer|, q.consumer.head)].Some?)
    && (Writing(q) && Taking(q) && |q.buffer| > 0 ==>
        Mod(|q.buffer|, q.producer.tail) != Mod(|q.buffer|, q.consumer.head))
    && (q.producer.SawHead? && !Writing(q) ==> |q.pushed| - q.seenHead == |q.buffer|)
    && (q.consumer.GotTail? && !Taking(q) ==> q.seenTail == |q.popped|)
  }

  // ---------- counters ----------

  /** The slot of the k-th item. */
  function Slot(words: Positive, cap: Positive, k: nat): (r: nat)
    ensures r < cap
  {
    Mod(cap, Mod(words, k))
  }

  lemma ModStep(w: Positive, k: nat)
    ensures WrappingAdd(w, Mod(w, k), 1) == Mod(w, k + 1)
  {
    ModAdd(w, k, 1);
  }

  lemma ModDifference(w: Positive, t: nat, s: nat)
    requires s <= t && t - s < w
    ensures WrappingSub(w, Mod(w, t), Mod(w, s)) == t - s
    ensures Mod(w, t) == Mod(w, s) <==> t == s
  {
    hide Mod;
    ModSub(w, Mod(w, t), s);
    ModAdd(w, t, 0 - s);
    ModSmall(w, t - s);
    ModSmall(w, 0);
  }

  /** The slots go round evenly, or the counter has not wrapped. */
  predicate Even(w: Positive, cap: nat, k: nat)
  {
    cap == 0 || Mod(cap, w) == 0 || k < w
  }

  lemma SlotIs(w: Positive, cap: Positive, k: nat)
    requires Even(w, cap, k)
    ensures Slot(w, cap, k) == Mod(cap, k)
  {
    hide Mod;
    if k < w {
      ModSmall(w, k);
    } else {
      var d := ModSplit(w, k);
      var e := ModSplit(cap, w);
      assert d * (e * cap) == (d * e) * cap;
      ModShift(cap, Mod(w, k), d * e);
    }
  }

  /** Nearby counts have different slots. */
  lemma SlotsDiffer(w: Positive, cap: Positive, i: nat, j: nat)
    requires i < j < i + cap && Even(w, cap, j)
    ensures Slot(w, cap, i) != Slot(w, cap, j)
  {
    hide Mod, Slot;
    SlotIs(w, cap, i);
    SlotIs(w, cap, j);
    ModDifference(cap, j, i);
  }

  // ---------- the invariant ----------

  ghost predicate CountersOk<T>(q: Queue<T>)
  {
    && |q.buffer| < q.words
    && |q.tails| == |q.pushed| + 1 && |q.heads| == |q.popped| + 1
    && (forall k :: 0 <= k < |q.tails| ==> q.tails[k] == Mod(q.words, k))
    && (forall k :: 0 <= k < |q.heads| ==> q.heads[k] == Mod(q.words, k))
    && |q.popped| <= q.seenTail <= |q.pushed|
    && q.seenHead <= |q.popped|
    && |q.pushed| - q.seenHead <= |q.buffer|
  }

  ghost predicate ProducerOk<T>(q: Queue<T>)
  {
    match q.producer
    case Ready => true
    case SawTail(_, tail) => tail == Mod(q.words, |q.pushed|)
    case SawHead(_, tail, head) => tail == Mod(q.words, |q.pushed|) && head == Mod(q.words, q.seenHead)
    case Wrote(_, tail) => tail == Mod(q.words, |q.pushed|) && |q.pushed| - q.seenHead < |q.buffer|
    case PushPanic => false
  }

  ghost predicate ConsumerOk<T>(q: Queue<T>)
  {
    match q.consumer
    case Waiting => true
    case GotHead(head) => head == Mod(q.words, |q.popped|)
    case GotTail(head, tail) => head == Mod(q.words, |q.popped|) && tail == Mod(q.words, q.seenTail)
    case Took(head, item) =>
      && head == Mod(q.words, |q.popped|)
      && |q.popped| < q.seenTail <= |q.pushed|
      && item == Some(q.pushed[|q.popped|])
    case PopPanic => false
  }

  /** The counts whose items are in the buffer. */
  function First<T>(q: Queue<T>): nat
  {
    |q.popped| + if q.consumer.Took? then 1 else 0
  }

  function End<T>(q: Queue<T>): nat
  {
    |q.pushed| + if q.producer.Wrote? then 1 else 0
  }

  /** The buffer holds exactly the items from First to End, each in its slot. */
  ghost predicate Holds<T>(q: Queue<T>, k: int, i: int)
  {
    && First(q) <= k < End(q)
    && 0 < |q.buffer|
    && Slot(q.words, |q.buffer|, k) == i
  }

  ghost predicate ContentsOk<T>(q: Queue<T>)
  {
    && (forall k, i :: Holds(q, k, i) ==> q.buffer[i] == Some(Item(q, k)))
    && (forall i :: 0 <= i < |q.buffer| && q.buffer[i].Some? ==> exists k :: Holds(q, k, i))
  }

  function Item<T>(q: Queue<T>, k: int): T
    requires 0 <= k < End(q)
  {
    if k < |q.pushed| then q.pushed[k] else q.producer.value
  }

  ghost predicate Good<T>(q: Queue<T>)
  {
    CountersOk(q) && ProducerOk(q) && ConsumerOk(q) && ContentsOk(q) && Fifo(q)
  }

  /** Items pushed, and the one a push has room for; a push that is refused does not count. */
  function Begun<T>(q: Queue<T>): nat
  {
    |q.pushed| + if q.producer.Wrote? || Writing(q) then 1 else 0
  }

  /** The wrap of the counter does no harm yet, or never will. */
  predicate Room<T>(q: Queue<T>)
  {
    |q.buffer| == 0 || Mod(|q.buffer|, q.words) == 0 || Begun(q) <= q.words
  }

  /** Two counts in the buffer, or one and the next to come, have different slots. */
  lemma Apart<T>(q: Queue<T>, i: nat, j: nat)
    requires CountersOk(q) && Room(q)
    requires q.seenHead <= i < j <= |q.pushed| && j < i + |q.buffer|
    requires j < |q.pushed| || q.producer.Wrote? || Writing(q)
    ensures Slot(q.words, |q.buffer|, i) != Slot(q.words, |q.buffer|, j)
  {
    hide Slot, Mod;
    SlotsDiffer(q.words, |q.buffer|, i, j);
  }

  lemma SlotDef(w: Positive, cap: Positive, k: nat)
    ensures Slot(w, cap, k) == Mod(cap, Mod(w, k))
  {
  }

  /** A step that touches no slot and moves no count keeps the contents. */
  lemma SameContents<T>(q: Queue<T>, r: Queue<T>)
    requires ContentsOk(q) && r.buffer == q.buffer && r.words == q.words
    requires First(r) == First(q) && End(r) == End(q)
    requires forall k :: First(q) <= k < End(q) ==> Item(r, k) == Item(q, k)
    ensures ContentsOk(r)
  {
    hide Slot, First, End, Item;
    forall k, i | Holds(r, k, i)
      ensures r.buffer[i] == Some(Item(r, k))
    {
      assert Holds(q, k, i);
    }
    forall i | 0 <= i < |r.buffer| && r.buffer[i].Some?
      ensures exists k :: Holds(r, k, i)
    {
      var k :| Holds(q, k, i);
      assert Holds(r, k, i);
    }
  }

  lemma WriteContents<T>(q: Queue<T>, i: nat)
    requires CountersOk(q) && ContentsOk(q) && ConsumerOk(q) && q.producer.SawHead? && i < |q.buffer|
    requires i == Slot(q.words, |q.buffer|, |q.pushed|) && q.buffer[i] == None
    ensures ContentsOk(q.(buffer := q.buffer[i := Some(q.producer.value)],
                          producer := Wrote(q.producer.value, q.producer.tail)))
  {
    hide Slot, Mod;
    var r := q.(buffer := q.buffer[i := Some(q.producer.value)], producer := Wrote(q.producer.value, q.producer.tail));
    forall k, j | Holds(r, k, j)
      ensures r.buffer[j] == Some(Item(r, k))
    {
      if k < |q.pushed| {
        assert Holds(q, k, j);
      }
    }
    forall j | 0 <= j < |r.buffer| && r.buffer[j].Some?
      ensures exists k :: Holds(r, k, j)
    {
      if j == i {
        assert Holds(r, |q.pushed|, i);
      } else {
        var k :| Holds(q, k, j);
        assert Holds(r, k, j);
      }
    }
  }

  lemma WriteGood<T>(q: Queue<T>)
    requires Good(q) && Room(q) && q.producer.SawHead?
    ensures Good(Step(q, WriteSlot))
    ensures Writing(q) ==> |q.buffer| > 0 && q.buffer[Mod(|q.buffer|, q.producer.tail)] == None
    ensures !Writing(q) ==> |q.pushed| - q.seenHead == |q.buffer|
  {
    hide Mod, Slot;
    var t, cap := |q.pushed|, |q.buffer|;
    ModDifference(q.words, t, q.seenHead);
    if !Writing(q) {
      SameContents(q, Step(q, WriteSlot));
    } else {
      var i := Mod(cap, q.producer.tail);
      SlotDef(q.words, cap, t);
      if q.buffer[i].Some? {
        var k :| Holds(q, k, i);
        Apart(q, k, t);
      }
      WriteContents(q, i);
    }
  }

  lemma TakeContents<T>(q: Queue<T>, i: nat)
    requires CountersOk(q) && ContentsOk(q) && ProducerOk(q) && Room(q)
    requires q.consumer.GotTail? && |q.popped| < q.seenTail && i < |q.buffer|
    requires i == Slot(q.words, |q.buffer|, |q.popped|)
    ensures q.buffer[i] == Some(q.pushed[|q.popped|])
    ensures ContentsOk(q.(buffer := q.buffer[i := None], consumer := Took(q.consumer.head, q.buffer[i])))
  {
    hide Slot, Mod;
    var r := q.(buffer := q.buffer[i := None], consumer := Took(q.consumer.head, q.buffer[i]));
    assert Holds(q, |q.popped|, i);
    forall k, j | Holds(r, k, j)
      ensures r.buffer[j] == Some(Item(r, k))
    {
      assert Holds(q, k, j);
      Apart(q, |q.popped|, k);
    }
    forall j | 0 <= j < |r.buffer| && r.buffer[j].Some?
      ensures exists k :: Holds(r, k, j)
    {
      var k :| Holds(q, k, j);
      assert Holds(r, k, j);
    }
  }

  lemma TakeGood<T>(q: Queue<T>)
    requires Good(q) && Room(q) && q.consumer.GotTail?
    ensures Good(Step(q, TakeSlot))
    ensures Taking(q) ==> |q.buffer| > 0 && q.buffer[Mod(|q.buffer|, q.consumer.head)].Some?
    ensures !Taking(q) ==> q.seenTail == |q.popped|
  {
    hide Mod, Slot;
    var h, cap := |q.popped|, |q.buffer|;
    ModDifference(q.words, q.seenTail, h);
    if !Taking(q) {
      SameContents(q, Step(q, TakeSlot));
    } else {
      SlotDef(q.words, cap, h);
      TakeContents(q, Mod(cap, q.consumer.head));
    }
  }

  lemma StoreGood<T>(q: Queue<T>, e: Event<T>)
    requires Good(q) && (e.StoreTail? || e.StoreHead?)
    ensures Good(Step(q, e))
  {
    hide Mod, Slot;
    ModStep(q.words, |q.pushed|);
    ModStep(q.words, |q.popped|);
    SameContents(q, Step(q, e));
  }

  lemma LoadGood<T>(q: Queue<T>, e: Event<T>)
    requires Good(q) && (e.LoadOwnTail? || e.LoadHead? || e.LoadOwnHead? || e.LoadTail?)
    ensures Good(Step(q, e))
  {
    hide Mod, Slot;
    SameContents(q, Step(q, e));
  }

  lemma StepGood<T>(q: Queue<T>, e: Event<T>)
    requires Good(q) && Room(q)
    ensures Good(Step(q, e))
  {
    hide Good, Room;
    if e.WriteSlot? {
      if q.producer.SawHead? { WriteGood(q); }
    } else if e.TakeSlot? {
      if q.consumer.GotTail? { TakeGood(q); }
    } else if e.StoreTail? || e.StoreHead? {
      StoreGood(q, e);
    } else {
      LoadGood(q, e);
    }
  }

  lemma GoodSafe<T>(q: Queue<T>)
    requires Good(q) && Room(q)
    ensures Safe(q)
  {
    hide Mod, Slot;
    if q.producer.SawHead? { WriteGood(q); }
    if q.consumer.GotTail? { TakeGood(q); }
  }

  // ---------- every run ----------

  lemma InitGood<T>(words: Positive, cap: nat)
    requires cap < words
    ensures Good(Init<T>(words, cap))
  {
    hide Slot;
    ModSmall(words, 0);
  }

  lemma StepKeeps<T>(q: Queue<T>, e: Event<T>)
    ensures |Step(q, e).buffer| == |q.buffer| && Step(q, e).words == q.words
    ensures Room(Step(q, e)) ==> Room(q)
  {
    hide Mod;
  }

  lemma {:induction false} RunKeeps<T>(words: Positive, cap: nat, es: seq<Event<T>>)
    ensures var q := Run(Init(words, cap), es);
            |q.buffer| == cap && q.words == words
  {
    hide Step, Mod;
    if es != [] {
      RunKeeps(words, cap, es[..|es| - 1]);
      StepKeeps(Run(Init(words, cap), es[..|es| - 1]), es[|es| - 1]);
    }
  }

  /** Every interleaving is safe if the capacity is zero or divides the number of counter values, and
      otherwise until more items were pushed than there are counter values. */
  lemma {:induction false} RunSafe<T>(words: Positive, cap: nat, es: seq<Event<T>>)
    requires cap < words
    requires cap == 0 || Mod(cap, words) == 0 || Begun(Run(Init(words, cap), es)) <= words
    ensures Good(Run(Init(words, cap), es)) && Safe(Run(Init(words, cap), es))
  {
    hide Good, Safe, Mod, Step, Begun;
    RunKeeps(words, cap, es);
    if es == [] {
      InitGood<T>(words, cap);
    } else {
      var before := es[..|es| - 1];
      var q := Run(Init(words, cap), before);
      RunKeeps(words, cap, before);
      StepKeeps(q, es[|es| - 1]);
      RunSafe(words, cap, before);
      StepGood(q, es[|es| - 1]);
    }
    GoodSafe(Run(Init(words, cap), es));
  }

  // ---------- queue and chute ----------

  /** A channel: messages go through the queue, used ones come back through a chute a third its size. */
  datatype Channel<T> = Channel(queue: Queue<T>, chute: Queue<T>)

  datatype ChannelEvent<T> = OnQueue(event: Event<T>) | OnChute(event: Event<T>)

  function NewChannel<T>(words: Positive, capacity: nat): Channel<T>
  {
    Channel(Init(words, capacity), Init(words, capacity / 3))
  }

  function ChannelRun<T>(c: Channel<T>, es: seq<ChannelEvent<T>>): Channel<T>
  {
    if es == [] then c
    else
      var d, e := ChannelRun(c, es[..|es| - 1]), es[|es| - 1];
      if e.OnQueue? then d.(queue := Step(d.queue, e.event)) else d.(chute := Step(d.chute, e.event))
  }

  function Only<T>(es: seq<ChannelEvent<T>>, queue: bool): seq<Event<T>>
  {
    if es == [] then []
    else if es[|es| - 1].OnQueue? == queue then Only(es[..|es| - 1], queue) + [es[|es| - 1].event]
    else Only(es[..|es| - 1], queue)
  }

  lemma {:induction false} RunsApart<T>(c: Channel<T>, es: seq<ChannelEvent<T>>)
    ensures ChannelRun(c, es).queue == Run(c.queue, Only(es, true))
    ensures ChannelRun(c, es).chute == Run(c.chute, Only(es, false))
  {
    hide Step;
    if es != [] {
      RunsApart(c, es[..|es| - 1]);
      RunMore(c.queue, Only(es[..|es| - 1], true), es[|es| - 1].event);
      RunMore(c.chute, Only(es[..|es| - 1], false), es[|es| - 1].event);
    }
  }

  lemma RunMore<T>(q: Queue<T>, es: seq<Event<T>>, e: Event<T>)
    ensures Run(q, es + [e]) == Step(Run(q, es), e)
  {
    hide Step;
    assert (es + [e])[..|es|] == es;
  }

  /** Queue and chute of one channel are both safe, whatever the two threads interleave on them. */
  lemma ChannelSafe<T>(words: Positive, capacity: nat, es: seq<ChannelEvent<T>>)
    requires capacity < words
    requires var c := ChannelRun(NewChannel(words, capacity), es);
             && (capacity == 0 || Mod(capacity, words) == 0 || Begun(c.queue) <= words)
             && (capacity < 3 || Mod(capacity / 3, words) == 0 || Begun(c.chute) <= words)
    ensures var c := ChannelRun(NewChannel(words, capacity), es);
            Safe(c.queue) && Safe(c.chute)
  {
    hide Safe, Good, Mod, Begun;
    RunsApart(NewChannel(words, capacity), es);
    RunSafe(words, capacity, Only(es, true));
    RunSafe(words, capacity / 3, Only(es, false));
  }
}

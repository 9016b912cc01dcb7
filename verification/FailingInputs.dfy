/** Inputs on which opening a block and justifying one do not do what their names say, as the exact
    conditions in LedgerRuns and Justifying predict. */
module FailingInputs {
  import opened Options
  import opened TrieTypes
  import opened Trie
  import opened TrieOps
  import opened Ownership
  import opened Pruning
  import opened Justifying
  import opened LedgerSpec
  import opened LedgerRuns
  import opened SharedChanges

  // ---------- a block opened on a full root ----------

  function FullChildren(): (cs: seq<Child>)
    ensures |cs| == BRANCH_ORDER && forall i :: 0 <= i < BRANCH_ORDER ==> cs[i] == Child(i, i, 1, 1)
  {
    seq(BRANCH_ORDER, i requires 0 <= i < BRANCH_ORDER => Child(i, i, 1, 1))
  }

  /** Block 1 with one account for every first byte. */
  ghost function FullStore(): (st: Store)
  {
    map id: NodeId | id in FullIds() :: if id == RootId(1) then Branch(0, FullChildren())
        else NewLeaf(ExampleHash(FirstByte(id), 0, 0), 1)
  }

  function FirstByte(id: NodeId): (x: Byte)
  {
    if id.path == [] then 0 else id.path[0]
  }

  ghost function FullIds(): (s: set<NodeId>)
    ensures forall id :: id in s <==> id == RootId(1) || exists x: Byte :: id == NodeId([x], 1)
  {
    {RootId(1)} + set x: Byte | 0 <= x < 256 :: NodeId([x], 1)
  }

  lemma FullGood()
    ensures Good(FullStore()) && FullRoot(FullStore(), 1)
  {
    var st := FullStore();
    forall id | id in st
      ensures NodeOk(st, id, st[id])
    {
      if id == RootId(1) {
        forall i | 0 <= i < |FullChildren()|
          ensures Below(id, FullChildren()[i].anchor, 1) in st
        {
          assert Below(id, i, 1) == NodeId([i], 1);
        }
      } else {
        var x := FirstByte(id);
        assert id == NodeId([x], 1);
        assert [x] <= ExampleHash(x, 0, 0);
        NewLeafOk([x], ExampleHash(x, 0, 0), 1);
      }
    }
  }

  /** Block 2 opened on it has none of the accounts. */
  lemma FullCopied()
    ensures exists k ::
              Lookup(FullStore(), RootId(1), k).Some? && Lookup(GetRoot(FullStore(), 2, 1), RootId(2), k) == None
  {
    var st := FullStore();
    FullGood();
    assert RootId(2) !in st && RootId(1) in st && st[RootId(1)].Branch? && st[RootId(1)].children != [];
    hide FullStore, Good, Lookup, GetRoot;
    var k := SomeAccount(st, RootId(1));
    OpenReads(st, 2, 1, 2, k);
  }

  // ---------- a block without accounts over a canonical one with some ----------

  function JustifyOps(): seq<Op>
  {
    var h1, h2 := ExampleHash(1, 0, 0), ExampleHash(2, 0, 0);
    [Create(ExampleHash(7, 0, 0), h1), Justify(h1), Write(ExampleHash(8, 0, 1), ZERO_HASH, None, h2, Some(h1)),
        Prune(h1)]
  }

  /** The account's leaf as a canonical node. */
  function SettledLeaf(): (n: Node)
    ensures n.Leaf?
  {
    var leaf := NewLeaf(ExampleHash(7, 0, 0), 1);
    leaf.(slotBlks := ClearedBlks(leaf.slotBlks))
  }

  function SettledStore(): (st: Store)
  {
    map[RootId(0) := Branch(0, [Child(7, 7, 1, 0)]), NodeId([7], 0) := SettledLeaf()]
  }

  lemma JustifyFirst()
    ensures JustifyAt(ExampleStore() - {RootId(2)}, RootId(1), 1) == (Ok, SettledStore())
  {
    var st, cs := ExampleStore() - {RootId(2)}, [Child(7, 7, 1, 1)];
    var child, leaf := NodeId([7], 1), SettledLeaf();
    hide NewLeaf, ClearedBlks;
    assert Below(RootId(1), 7, 1) == child;
    var st1 := (st - {child})[NodeId([7], 0) := leaf];
    assert JustifyAt(st, child, 1) == (Ok, st1);
    assert JustifyChildren(st1, RootId(1), cs, 1, 1) == (Ok, st1);
    assert JustifyChildren(st, RootId(1), cs, 1, 0) == (Ok, st1);
    assert Cleared(cs) == [Child(7, 7, 1, 0)];
    assert (st1 - {RootId(1)})[RootId(0) := Branch(0, Cleared(cs))] == SettledStore();
  }

  lemma SecondJustify(s: State)
    requires s.names == Names(map[ExampleHash(1, 0, 0) := 1], 2) && s.store == ExampleStore() - {RootId(2)}
    ensures Step(s, JustifyOps()[1]) == (Ok, State(s.names, SettledStore()))
  {
    JustifyFirst();
    assert RootId(1) in s.store;
    hide SettledStore, ExampleStore, JustifyAt;
  }

  lemma ThirdWrite(s: State)
    requires s.names == Names(map[ExampleHash(1, 0, 0) := 1], 2) && s.store == SettledStore()
    ensures Step(s, JustifyOps()[2])
         == (NotExist, State(ExampleNames(), SettledStore()[RootId(1) := Branch(0, [])][RootId(2) := Branch(0, [])]))
  {
    assert ExampleHash(1, 0, 0)[0] != ExampleHash(2, 0, 0)[0];
    var st := SettledStore()[RootId(1) := Branch(0, [])][RootId(2) := Branch(0, [])];
    hide SettledLeaf;
    assert GetRoot(s.store, 2, 1) == st;
    assert Next([], ExampleHash(8, 0, 1)[0]) == None;
  }

  lemma FourthPrune(s: State)
    requires s == State(ExampleNames(), SettledStore()[RootId(1) := Branch(0, [])][RootId(2) := Branch(0, [])])
    ensures Step(s, JustifyOps()[3])
         == (Ok, State(Names(map[ExampleHash(2, 0, 0) := 2], 3), SettledStore()[RootId(2) := Branch(0, [])]))
  {
    assert ExampleHash(1, 0, 0)[0] != ExampleHash(2, 0, 0)[0];
    assert ExampleNames().ids - {ExampleHash(1, 0, 0)} == map[ExampleHash(2, 0, 0) := 2];
    hide SettledLeaf;
    assert PruneChildren(s.store, RootId(1), [], 1, 0) == s.store;
    assert s.store - {RootId(1)} == SettledStore()[RootId(2) := Branch(0, [])];
  }

  lemma RunCons(s: State, ops: seq<Op>)
    requires ops != [] && s.names.next < 65536 && Run(Step(s, ops[0]).1, ops[1..]).Some?
    ensures var (rc, s1) := Step(s, ops[0]);
            Run(s, ops) == Some(([rc] + Run(s1, ops[1..]).value.0, Run(s1, ops[1..]).value.1))
  {
    hide Step;
  }

  lemma JustifyReached()
    ensures Run(START, JustifyOps()).Some?
    ensures Run(START, JustifyOps()).value.1 ==
            State(Names(map[ExampleHash(2, 0, 0) := 2], 3), SettledStore()[RootId(2) := Branch(0, [])])
  {
    var ops := JustifyOps();
    FirstStep();
    var s1 := Step(START, ops[0]).1;
    SecondJustify(s1);
    var s2 := Step(s1, ops[1]).1;
    ThirdWrite(s2);
    var s3 := Step(s2, ops[2]).1;
    FourthPrune(s3);
    var s4 := Step(s3, ops[3]).1;
    hide Step, SettledStore, ExampleStore, ExampleHash;
    assert ops[1..][0] == ops[1] && ops[1..][1..] == ops[2..] && ops[2..][0] == ops[2] && ops[2..][1..] == ops[3..];
    assert ops[3..][0] == ops[3] && ops[3..][1..] == [];
    RunCons(s3, ops[3..]);
    RunCons(s2, ops[2..]);
    RunCons(s1, ops[1..]);
    RunCons(START, ops);
  }

  lemma SettledGood()
    ensures var st := SettledStore()[RootId(2) := Branch(0, [])];
            Good(st) && Owned(st, 2) && Pending(st, [], 2) && EmptyRoot(st, 2) && !EmptyRoot(st, CANONICAL)
  {
    var st := SettledStore()[RootId(2) := Branch(0, [])];
    NewLeafOk([7], ExampleHash(7, 0, 0), 1) by {
      assert [7] <= ExampleHash(7, 0, 0);
    }
    assert LeafOk(NodeId([7], 0), SettledLeaf());
    hide SettledLeaf;
    assert Below(RootId(0), 7, 0) == NodeId([7], 0);
    forall id | id in st
      ensures NodeOk(st, id, st[id])
    {
    }
  }

  /** There block 2 has no accounts, and justifying it leaves canonical as it was. */
  lemma JustifyKeepsCanonical()
    ensures Run(START, JustifyOps()).Some?
    ensures var st := Run(START, JustifyOps()).value.1.store;
            exists k :: Lookup(JustifyAt(st, RootId(2), 2).1, RootId(CANONICAL), k) != Lookup(st, RootId(2), k)
  {
    JustifyReached();
    SettledGood();
    var st := SettledStore()[RootId(2) := Branch(0, [])];
    hide SettledStore, Good, OwnedBelow, Pending, EmptyRoot, Lookup, JustifyAt, Run;
    JustifyBlock(st, 2);
  }
}

/** Nodes as bytes (branch.cpp:28-100, leaf.cpp:25-140). */
module Codec {
  import opened Scalars
  import opened TrieTypes
  import opened LedgerSpec
  import opened Finalizing

  const BRANCH_TAG: Byte := 69
  const LEAF_TAG: Byte := 71

  /** Bytes set aside for a commitment. */
  const POINT_SIZE: nat := 144

  /** The compressed form of a commitment, which the curve library reads back. */
  datatype Points = Points(enc: Scalar -> seq<Byte>, dec: seq<Byte> -> Scalar)

  ghost predicate PointsOk(p: Points)
  {
    forall c: Scalar :: |p.enc(c)| == POINT_SIZE && p.dec(p.enc(c)) == c
  }

  // ---------- numbers ----------

  function LeBytes(x: nat, n: nat): (s: seq<Byte>)
    ensures |s| == n
  {
    if n == 0 then [] else [x % 256] + LeBytes(x / 256, n - 1)
  }

  function Power256(n: nat): (r: nat)
  {
    if n == 0 then 1 else 256 * Power256(n - 1)
  }

  lemma {:induction false} LeRound(x: nat, n: nat)
    requires x < Power256(n)
    ensures LittleEndian(LeBytes(x, n)) == x
  {
    if n > 0 {
      LeRound(x / 256, n - 1);
      assert LeBytes(x, n)[1..] == LeBytes(x / 256, n - 1);
    }
  }

  lemma {:induction false} LeBound(s: seq<Byte>)
    ensures LittleEndian(s) < Power256(|s|)
  {
    if s != [] {
      LeBound(s[1..]);
    }
  }

  lemma Powers()
    ensures Power256(2) == 65536 && Power256(32) == TWO_256
  {
    assert Power256(8) == 0x1_0000_0000_0000_0000;
    assert Power256(16) == 0x1_0000_0000_0000_0000_0000_0000_0000_0000;
    assert Power256(24) == 0x1_0000_0000_0000_0000_0000_0000_0000_0000_0000_0000_0000_0000;
  }

  lemma ScalarRound(x: Scalar)
    ensures ToScalar(LeBytes(x, 32)) == x
  {
    Powers();
    LeRound(x, 32);
    ModSmall(P, x);
  }

  function ReadBlockId(s: seq<Byte>): (b: BlockId)
    requires |s| == 2
  {
    LeBound(s);
    Powers();
    LittleEndian(s)
  }

  lemma BlockIdRound(b: BlockId)
    ensures ReadBlockId(LeBytes(b, 2)) == b
  {
    Powers();
    LeRound(b, 2);
  }

  lemma Regroup<T>(a: seq<T>, b: seq<T>, c: seq<T>)
    ensures a + (b + c) == (a + b) + c
  {
  }

  // ---------- branches ----------

  const CHILD_SIZE: nat := 36

  function ChildBytes(c: Child): (s: seq<Byte>)
    ensures |s| == CHILD_SIZE
  {
    [c.anchor, c.end] + LeBytes(c.sk, 32) + LeBytes(c.blk, 2)
  }

  function ReadChild(s: seq<Byte>): (c: Child)
    requires |s| == CHILD_SIZE
  {
    Child(s[0], s[1], ToScalar(s[2..34]), ReadBlockId(s[34..36]))
  }

  lemma ChildRound(c: Child)
    ensures ReadChild(ChildBytes(c)) == c
  {
    var s := ChildBytes(c);
    assert s[2..34] == LeBytes(c.sk, 32) && s[34..36] == LeBytes(c.blk, 2);
    ScalarRound(c.sk);
    BlockIdRound(c.blk);
  }

  function ChildrenBytes(cs: seq<Child>): (s: seq<Byte>)
    ensures |s| == CHILD_SIZE * |cs|
  {
    if cs == [] then [] else ChildBytes(cs[0]) + ChildrenBytes(cs[1..])
  }

  function ReadChildren(s: seq<Byte>, n: nat): (cs: seq<Child>)
    requires |s| >= CHILD_SIZE * n
    ensures |cs| == n
  {
    if n == 0 then [] else [ReadChild(s[..CHILD_SIZE])] + ReadChildren(s[CHILD_SIZE..], n - 1)
  }

  lemma {:induction false} ChildrenRound(cs: seq<Child>, n: nat)
    requires n <= |cs|
    ensures ReadChildren(ChildrenBytes(cs), n) == cs[..n]
  {
    if n > 0 {
      var s := ChildrenBytes(cs);
      assert s[..CHILD_SIZE] == ChildBytes(cs[0]) && s[CHILD_SIZE..] == ChildrenBytes(cs[1..]);
      hide ChildBytes, ReadChild;
      ChildRound(cs[0]);
      ChildrenRound(cs[1..], n - 1);
      assert cs[..n] == [cs[0]] + cs[1..][..n - 1];
    }
  }

  const BRANCH_HEAD: nat := 3 + POINT_SIZE

  /** Tag, split flag, commitment, the number of children in one byte, the children. */
  ghost function EncodeBranch(p: Points, n: Node): (s: seq<Byte>)
    requires PointsOk(p) && n.Branch?
    ensures |s| == BRANCH_HEAD + CHILD_SIZE * |n.children|
  {
    [BRANCH_TAG, 0] + p.enc(n.commit) + [|n.children| % 256] + ChildrenBytes(n.children)
  }

  /** All the bytes a branch's count announces are there. */
  predicate WholeBranch(s: seq<Byte>)
  {
    |s| >= BRANCH_HEAD && |s| >= BRANCH_HEAD + CHILD_SIZE * s[BRANCH_HEAD - 1]
  }

  function DecodeBranch(p: Points, s: seq<Byte>): (n: Node)
    requires WholeBranch(s)
  {
    Branch(p.dec(s[2..2 + POINT_SIZE]), ReadChildren(s[BRANCH_HEAD..], s[BRANCH_HEAD - 1]))
  }

  /** What comes back is the branch with as many children as its count byte says: the branch itself
      exactly if it has fewer than 256. */
  lemma BranchRoundTrip(p: Points, n: Node)
    requires PointsOk(p) && n.Branch?
    ensures WholeBranch(EncodeBranch(p, n)) && DecodeBranch(p, EncodeBranch(p, n)) == Recoded(n)
    ensures DecodeBranch(p, EncodeBranch(p, n)) == n <==> |n.children| < 256
  {
    var s, k := EncodeBranch(p, n), |n.children| % 256;
    assert |p.enc(n.commit)| == POINT_SIZE;
    assert s[BRANCH_HEAD - 1] == k && s[2..2 + POINT_SIZE] == p.enc(n.commit);
    assert s[BRANCH_HEAD..] == ChildrenBytes(n.children);
    ChildrenRound(n.children, k);
    assert |n.children| < 256 ==> n.children[..k] == n.children;
  }

  /** A branch with an entry for every byte comes back without any. */
  lemma FullBranchLost(p: Points, n: Node)
    requires PointsOk(p) && n == Branch(0, seq(BRANCH_ORDER, i requires 0 <= i < BRANCH_ORDER => Child(i, i, 1, 1)))
    ensures DecodeBranch(p, EncodeBranch(p, n)) == Branch(0, [])
  {
    BranchRoundTrip(p, n);
    assert |n.children| % 256 == 0 && n.children[..0] == [];
    hide EncodeBranch, DecodeBranch;
  }

  /** Branch::to_bytes */
  method BranchToBytes(p: Points, n: Node) returns (s: seq<Byte>)
    requires PointsOk(p) && n.Branch?
    ensures s == EncodeBranch(p, n)
  {
    s := [BRANCH_TAG, 0] + p.enc(n.commit) + [|n.children| % 256];
    assert n.children[0..] == n.children;
    for i := 0 to |n.children|
      invariant s + ChildrenBytes(n.children[i..]) == EncodeBranch(p, n)
    {
      hide ChildBytes;
      assert n.children[i..][1..] == n.children[i + 1..];
      s := s + ChildBytes(n.children[i]);
    }
    assert ChildrenBytes(n.children[|n.children|..]) == [];
  }

  /** The constructor that reads bytes. */
  method BranchFromBytes(p: Points, s: seq<Byte>) returns (n: Node)
    requires WholeBranch(s)
    ensures n == DecodeBranch(p, s)
  {
    var children := ChildrenFromBytes(s[BRANCH_HEAD..], s[BRANCH_HEAD - 1]);
    return Branch(p.dec(s[2..2 + POINT_SIZE]), children);
  }

  method ChildrenFromBytes(s: seq<Byte>, count: nat) returns (children: seq<Child>)
    requires |s| >= CHILD_SIZE * count
    ensures children == ReadChildren(s, count)
  {
    var cursor := s;
    children := [];
    for i := 0 to count
      invariant |cursor| >= CHILD_SIZE * (count - i)
      invariant children + ReadChildren(cursor, count - i) == ReadChildren(s, count)
    {
      hide ReadChild;
      Regroup(children, [ReadChild(cursor[..CHILD_SIZE])], ReadChildren(cursor[CHILD_SIZE..], count - i - 1));
      children := children + [ReadChild(cursor[..CHILD_SIZE])];
      cursor := cursor[CHILD_SIZE..];
    }
  }

  // ---------- leaves ----------

  const RECORD_SIZE: nat := 35

  predicate Skipped(slots: seq<Hash>, blks: seq<BlockId>, i: nat)
    requires i < |slots| && i < |blks|
  {
    slots[i] == ZERO_HASH && blks[i] == 0
  }

  function Record(i: Byte, h: Hash, b: BlockId): (s: seq<Byte>)
    ensures |s| == RECORD_SIZE
  {
    [i] + h + LeBytes(b, 2)
  }

  /** The slots from the i-th on that hold something. */
  function Records(slots: seq<Hash>, blks: seq<BlockId>, i: nat): (r: (nat, seq<Byte>))
    requires |slots| == |blks| == LEAF_ORDER && i <= LEAF_ORDER
    ensures r.0 <= LEAF_ORDER - i && |r.1| == RECORD_SIZE * r.0
    decreases |slots| - i
  {
    if i == |slots| then (0, [])
    else
      var (n, s) := Records(slots, blks, i + 1);
      if Skipped(slots, blks, i) then (n, s) else (n + 1, Record(i, slots[i], blks[i]) + s)
  }

  /** n records over what the slots hold already; one for a slot past the end is ignored. */
  function ReadRecords(s: seq<Byte>, n: nat, slots: seq<Hash>, blks: seq<BlockId>): (r: (seq<Hash>, seq<BlockId>))
    requires |s| >= RECORD_SIZE * n && |slots| == |blks| == LEAF_ORDER
    ensures |r.0| == |r.1| == LEAF_ORDER
    decreases n
  {
    if n == 0 then (slots, blks)
    else if s[0] >= LEAF_ORDER then ReadRecords(s[RECORD_SIZE..], n - 1, slots, blks)
    else ReadRecords(s[RECORD_SIZE..], n - 1, slots[s[0] := s[1..33]], blks[s[0] := ReadBlockId(s[33..35])])
  }

  ghost predicate ReadUpTo(slots: seq<Hash>, blks: seq<BlockId>, i: nat, done: seq<Hash>, doneBlks: seq<BlockId>)
  {
    && |slots| == |blks| == |done| == |doneBlks| == LEAF_ORDER
    && forall k :: 0 <= k < LEAF_ORDER ==>
         if k < i then done[k] == slots[k] && doneBlks[k] == blks[k] else done[k] == ZERO_HASH && doneBlks[k] == 0
  }

  lemma RecordsStep(slots: seq<Hash>, blks: seq<BlockId>, i: nat)
    requires |slots| == |blks| == LEAF_ORDER && i < LEAF_ORDER
    ensures var r := Records(slots, blks, i + 1);
            Records(slots, blks, i) == if Skipped(slots, blks, i) then r
                else (r.0 + 1, Record(i, slots[i], blks[i]) + r.1)
  {
    hide Record;
  }

  lemma ReadFurther(slots: seq<Hash>, blks: seq<BlockId>, i: nat, done: seq<Hash>, doneBlks: seq<BlockId>)
    requires ReadUpTo(slots, blks, i, done, doneBlks)
    ensures i >= LEAF_ORDER ==> done == slots && doneBlks == blks
    ensures i < LEAF_ORDER && Skipped(slots, blks, i) ==> ReadUpTo(slots, blks, i + 1, done, doneBlks)
    ensures i < LEAF_ORDER ==> ReadUpTo(slots, blks, i + 1, done[i := slots[i]], doneBlks[i := blks[i]])
  {
  }

  lemma {:induction false} RecordsRound(slots: seq<Hash>, blks: seq<BlockId>, i: nat, done: seq<Hash>,
                                        doneBlks: seq<BlockId>)
    requires |slots| == |blks| == |done| == |doneBlks| == LEAF_ORDER
    requires i <= LEAF_ORDER && ReadUpTo(slots, blks, i, done, doneBlks)
    ensures var r := Records(slots, blks, i);
            ReadRecords(r.1, r.0, done, doneBlks) == (slots, blks)
    decreases LEAF_ORDER - i
  {
    ReadFurther(slots, blks, i, done, doneBlks);
    if i < LEAF_ORDER {
      RecordsStep(slots, blks, i);
      var r := Records(slots, blks, i + 1);
      hide ReadRecords, Record, Records, ReadUpTo;
      if Skipped(slots, blks, i) {
        hide Skipped;
        RecordsRound(slots, blks, i + 1, done, doneBlks);
      } else {
        hide Skipped;
        RecordsRound(slots, blks, i + 1, done[i := slots[i]], doneBlks[i := blks[i]]);
        ReadOne(i, slots[i], blks[i], r.1, r.0, done, doneBlks);
      }
    }
  }

  lemma ReadOne(i: Byte, h: Hash, b: BlockId, s: seq<Byte>, n: nat, slots: seq<Hash>, blks: seq<BlockId>)
    requires i < LEAF_ORDER && |s| >= RECORD_SIZE * n && |slots| == |blks| == LEAF_ORDER
    ensures ReadRecords(Record(i, h, b) + s, n + 1, slots, blks) == ReadRecords(s, n, slots[i := h], blks[i := b])
  {
    var t := Record(i, h, b) + s;
    assert t[0] == i && t[1..33] == h && t[33..35] == LeBytes(b, 2) && t[RECORD_SIZE..] == s;
    BlockIdRound(b);
  }

  const LEAF_HEAD: nat := 3 + POINT_SIZE + 32

  /** Tag, commitment, path, the stored count, the number of records, the records. */
  ghost function EncodeLeaf(p: Points, n: Node, count: Byte): (s: seq<Byte>)
    requires PointsOk(p) && n.Leaf? && |n.slots| == |n.slotBlks| == LEAF_ORDER
  {
    var (k, records) := Records(n.slots, n.slotBlks, 0);
    [LEAF_TAG] + p.enc(n.commit) + n.path + [count] + [k] + records
  }

  predicate WholeLeaf(s: seq<Byte>)
  {
    |s| >= LEAF_HEAD && |s| >= LEAF_HEAD + RECORD_SIZE * s[LEAF_HEAD - 1]
  }

  function EmptySlots(): (s: seq<Hash>)
    ensures |s| == LEAF_ORDER && forall i :: 0 <= i < LEAF_ORDER ==> s[i] == ZERO_HASH
  {
    seq(LEAF_ORDER, i => ZERO_HASH)
  }

  function DecodeLeaf(p: Points, s: seq<Byte>): (r: (Node, Byte))
    requires WholeLeaf(s)
  {
    var (slots, blks) := ReadRecords(s[LEAF_HEAD..], s[LEAF_HEAD - 1], EmptySlots(), ZeroBlks());
    (Leaf(p.dec(s[1..1 + POINT_SIZE]), s[1 + POINT_SIZE..33 + POINT_SIZE], slots, blks), s[LEAF_HEAD - 2])
  }

  function ZeroBlks(): (s: seq<BlockId>)
    ensures |s| == LEAF_ORDER && forall i :: 0 <= i < LEAF_ORDER ==> s[i] == 0
  {
    seq(LEAF_ORDER, i => 0)
  }

  /** Where the parts of an encoded leaf are. */
  lemma LeafLayout(point: seq<Byte>, path: Hash, count: Byte, k: Byte, records: seq<Byte>)
    requires |point| == POINT_SIZE
    ensures var s := [LEAF_TAG] + point + path + [count] + [k] + records;
            && |s| == LEAF_HEAD + |records|
            && s[1..1 + POINT_SIZE] == point && s[1 + POINT_SIZE..33 + POINT_SIZE] == path
            && s[LEAF_HEAD - 2] == count && s[LEAF_HEAD - 1] == k && s[LEAF_HEAD..] == records
  {
  }

  /** Every leaf comes back as it was, with its count. */
  lemma LeafRoundTrip(p: Points, n: Node, count: Byte)
    requires PointsOk(p) && n.Leaf? && |n.slots| == |n.slotBlks| == LEAF_ORDER
    ensures WholeLeaf(EncodeLeaf(p, n, count)) && DecodeLeaf(p, EncodeLeaf(p, n, count)) == (n, count)
  {
    var r := Records(n.slots, n.slotBlks, 0);
    RecordsRound(n.slots, n.slotBlks, 0, EmptySlots(), ZeroBlks());
    hide Records, ReadRecords, EmptySlots, ZeroBlks;
    assert |p.enc(n.commit)| == POINT_SIZE;
    LeafLayout(p.enc(n.commit), n.path, count, r.0, r.1);
  }

  /** Leaf::to_bytes */
  method LeafToBytes(p: Points, n: Node, count: Byte) returns (s: seq<Byte>)
    requires PointsOk(p) && n.Leaf? && |n.slots| == |n.slotBlks| == LEAF_ORDER
    ensures s == EncodeLeaf(p, n, count)
  {
    var count2, records := RecordsToBytes(n.slots, n.slotBlks);
    hide Records;
    s := [LEAF_TAG] + p.enc(n.commit) + n.path + [count] + [count2] + records;
  }

  method RecordsToBytes(slots: seq<Hash>, blks: seq<BlockId>) returns (count2: nat, records: seq<Byte>)
    requires |slots| == |blks| == LEAF_ORDER
    ensures (count2, records) == Records(slots, blks, 0)
  {
    count2, records := 0, [];
    for i := 0 to LEAF_ORDER
      invariant count2 + Records(slots, blks, i).0 == Records(slots, blks, 0).0
      invariant records + Records(slots, blks, i).1 == Records(slots, blks, 0).1
    {
      RecordsStep(slots, blks, i);
      hide Record, Records;
      Regroup(records, Record(i, slots[i], blks[i]), Records(slots, blks, i + 1).1);
      if slots[i] == ZERO_HASH && blks[i] == 0 {
        continue;
      }
      count2 := count2 + 1;
      records := records + Record(i, slots[i], blks[i]);
    }
    assert Records(slots, blks, LEAF_ORDER) == (0, []);
    assert records + [] == records;
  }

  /** The constructor that reads bytes. */
  method LeafFromBytes(p: Points, s: seq<Byte>) returns (n: Node, count: Byte)
    requires WholeLeaf(s)
    ensures (n, count) == DecodeLeaf(p, s)
  {
    hide ReadRecords, EmptySlots, ZeroBlks;
    var slots, blks := RecordsFromBytes(s[LEAF_HEAD..], s[LEAF_HEAD - 1], EmptySlots(), ZeroBlks());
    return Leaf(p.dec(s[1..1 + POINT_SIZE]), s[1 + POINT_SIZE..33 + POINT_SIZE], slots, blks), s[LEAF_HEAD - 2];
  }

  method RecordsFromBytes(s: seq<Byte>, count2: nat, slots0: seq<Hash>, blks0: seq<BlockId>)
    returns (slots: seq<Hash>, blks: seq<BlockId>)
    requires |s| >= RECORD_SIZE * count2 && |slots0| == |blks0| == LEAF_ORDER
    ensures (slots, blks) == ReadRecords(s, count2, slots0, blks0)
  {
    slots, blks := slots0, blks0;
    var cursor := s;
    for i := 0 to count2
      invariant |cursor| >= RECORD_SIZE * (count2 - i) && |slots| == |blks| == LEAF_ORDER
      invariant ReadRecords(cursor, count2 - i, slots, blks) == ReadRecords(s, count2, slots0, blks0)
    {
      hide ReadBlockId;
      var nib := cursor[0];
      if nib < LEAF_ORDER {
        slots := slots[nib := cursor[1..33]];
        blks := blks[nib := ReadBlockId(cursor[33..35])];
      }
      cursor := cursor[RECORD_SIZE..];
    }
  }
}

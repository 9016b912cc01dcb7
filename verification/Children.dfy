/** The sorted child entries of a branch (branch.cpp:102-161). */
module Children {
  import opened Options
  import opened TrieTypes

  /** get_child: the first entry whose range holds the byte. */
  function Entry(cs: seq<Child>, nib: Byte): (r: Option<Child>) {
    if cs == [] then None
    else if cs[0].anchor <= nib <= cs[0].end then Some(cs[0])
    else Entry(cs[1..], nib)
  }

  /** Single bytes in increasing order, as every branch that is not split keeps them. */
  predicate Sorted(cs: seq<Child>) {
    && (forall i :: 0 <= i < |cs| ==> cs[i].anchor == cs[i].end)
    && (forall i, j :: 0 <= i < j < |cs| ==> cs[i].anchor < cs[j].anchor)
  }

  /** insert_child of a single byte, as a value. */
  function Insert(cs: seq<Child>, nib: Byte, b: BlockId): (r: seq<Child>) {
    if cs == [] then [Child(nib, nib, 1, b)]
    else if cs[0].anchor <= nib <= cs[0].end then [Touch(cs[0], b)] + cs[1..]
    else if nib < cs[0].anchor then [Child(nib, nib, 1, b)] + cs
    else [cs[0]] + Insert(cs[1..], nib, b)
  }

  /** An existing entry moved to block b; a zero scalar becomes the placeholder one. */
  function Touch(c: Child, b: BlockId): (r: Child) {
    c.(sk := if c.sk == 0 then 1 else c.sk, blk := b)
  }

  /** The entry of the byte after insertion. */
  function Inserted(cs: seq<Child>, nib: Byte, b: BlockId): (c: Child) {
    match Entry(cs, nib)
    case None => Child(nib, nib, 1, b)
    case Some(c) => Touch(c, b)
  }

  lemma {:induction false} EntryIsMember(cs: seq<Child>, nib: Byte)
    ensures Entry(cs, nib).Some? ==>
              Entry(cs, nib).value in cs && Entry(cs, nib).value.anchor <= nib <= Entry(cs, nib).value.end
    ensures Entry(cs, nib).None? ==> forall i :: 0 <= i < |cs| ==> !(cs[i].anchor <= nib <= cs[i].end)
  {
    if cs != [] && !(cs[0].anchor <= nib <= cs[0].end) {
      EntryIsMember(cs[1..], nib);
      assert cs == [cs[0]] + cs[1..];
    }
  }

  lemma SortedTail(cs: seq<Child>)
    requires Sorted(cs) && cs != []
    ensures Sorted(cs[1..])
    ensures forall i :: 0 <= i < |cs[1..]| ==> cs[0].anchor < cs[1..][i].anchor
  {
  }

  /** In sorted entries every member is the entry of its own byte. */
  lemma {:induction false} MemberIsEntry(cs: seq<Child>, i: nat)
    requires Sorted(cs) && i < |cs|
    ensures Entry(cs, cs[i].anchor) == Some(cs[i])
  {
    if i > 0 {
      assert cs[0].anchor < cs[i].anchor;
      SortedTail(cs);
      MemberIsEntry(cs[1..], i - 1);
    }
  }

  /** Nothing before the byte of the first entry. */
  lemma EntryBefore(cs: seq<Child>, nib: Byte)
    requires Sorted(cs)
    requires forall i :: 0 <= i < |cs| ==> nib < cs[i].anchor
    ensures Entry(cs, nib) == None
  {
    EntryIsMember(cs, nib);
  }

  /** What insertion does to every entry. */
  lemma {:induction false} InsertEntry(cs: seq<Child>, nib: Byte, b: BlockId, n: Byte)
    requires Sorted(cs)
    ensures n != nib ==> Entry(Insert(cs, nib, b), n) == Entry(cs, n)
    ensures n == nib ==> Entry(Insert(cs, nib, b), n) == Some(Inserted(cs, nib, b))
  {
    if cs == [] {
      assert Insert(cs, nib, b)[1..] == [];
    } else {
      var r := Insert(cs, nib, b);
      SortedTail(cs);
      if cs[0].anchor == nib {
        assert r[1..] == cs[1..];
      } else if nib < cs[0].anchor {
        assert r[1..] == cs;
        EntryBefore(cs, nib);
      } else {
        assert r[1..] == Insert(cs[1..], nib, b);
        InsertEntry(cs[1..], nib, b, n);
      }
    }
  }

  lemma InsertCases(cs: seq<Child>, nib: Byte, b: BlockId)
    requires Sorted(cs) && cs != []
    ensures cs[0].anchor == nib ==> Insert(cs, nib, b) == [Touch(cs[0], b)] + cs[1..]
    ensures nib < cs[0].anchor ==> Insert(cs, nib, b) == [Child(nib, nib, 1, b)] + cs
    ensures cs[0].anchor < nib ==> Insert(cs, nib, b) == [cs[0]] + Insert(cs[1..], nib, b)
  {
  }

  lemma SortedCons(c: Child, t: seq<Child>)
    requires Sorted(t) && c.anchor == c.end && forall i :: 0 <= i < |t| ==> c.anchor < t[i].anchor
    ensures Sorted([c] + t)
  {
  }

  /** Every member after insertion is an old one or the inserted byte. */
  lemma {:induction false} InsertMember(cs: seq<Child>, nib: Byte, b: BlockId, c: Child)
    requires Sorted(cs) && c in Insert(cs, nib, b)
    ensures (c in cs && c.anchor != nib) || (c.anchor == nib && c.blk == b && c.sk != 0)
  {
    if cs != [] {
      SortedTail(cs);
      InsertCases(cs, nib, b);
      TouchFacts(cs[0], b);
      hide *;
      if cs[0].anchor < nib && c != cs[0] {
        InsertMember(cs[1..], nib, b, c);
      }
    }
  }

  /** Insertion keeps the order. */
  lemma {:induction false} InsertSorted(cs: seq<Child>, nib: Byte, b: BlockId)
    requires Sorted(cs)
    ensures Sorted(Insert(cs, nib, b)) && Insert(cs, nib, b) != []
  {
    if cs != [] {
      assert cs[0].anchor == cs[0].end;
      SortedTail(cs);
      InsertCases(cs, nib, b);
      var rest := cs[1..];
      if cs[0].anchor == nib {
        hide *;
        TouchFacts(cs[0], b);
        SortedCons(Touch(cs[0], b), rest);
      } else if nib < cs[0].anchor {
        FirstIsLeast(cs);
        hide *;
        SortedCons(Child(nib, nib, 1, b), cs);
      } else {
        InsertSorted(rest, nib, b);
        hide *;
        var t := Insert(rest, nib, b);
        forall i | 0 <= i < |t| ensures cs[0].anchor < t[i].anchor {
          InsertMember(rest, nib, b, t[i]);
        }
        SortedCons(cs[0], t);
      }
    }
  }

  lemma TouchFacts(c: Child, b: BlockId)
    ensures Touch(c, b).anchor == c.anchor && Touch(c, b).end == c.end && Touch(c, b).blk == b && Touch(c, b).sk != 0
  {
  }

  lemma FirstIsLeast(cs: seq<Child>)
    requires Sorted(cs)
    ensures forall i :: 0 <= i < |cs| ==> cs[0].anchor <= cs[i].anchor
  {
  }

  /** Increasing bytes: the i-th is at least i, so there are at most 256. */
  lemma SortedCount(cs: seq<Child>)
    requires Sorted(cs)
    ensures |cs| <= BRANCH_ORDER
  {
    if cs != [] {
      AnchorAtLeast(cs, |cs| - 1);
    }
  }

  lemma {:induction false} AnchorAtLeast(cs: seq<Child>, i: nat)
    requires Sorted(cs) && i < |cs|
    ensures i <= cs[i].anchor
  {
    if i > 0 {
      AnchorAtLeast(cs, i - 1);
    }
  }

  ghost predicate EveryByte(cs: seq<Child>) {
    forall x: Byte :: Entry(cs, x).Some?
  }

  /** There are 256 exactly if every byte has one. */
  lemma FullCount(cs: seq<Child>)
    requires Sorted(cs)
    ensures |cs| == BRANCH_ORDER <==> EveryByte(cs)
  {
    SortedCount(cs);
    hide Entry, Sorted;
    if |cs| == BRANCH_ORDER {
      forall x: Byte ensures Entry(cs, x).Some? {
        AnchorIs(cs, x);
        MemberIsEntry(cs, x);
      }
    } else if EveryByte(cs) {
      var i := PlaceOf(cs, 255);
    }
  }

  lemma {:induction false} AnchorIs(cs: seq<Child>, i: nat)
    requires Sorted(cs) && |cs| == BRANCH_ORDER && i < |cs|
    ensures cs[i].anchor == i
    decreases |cs| - i
  {
    AnchorAtLeast(cs, i);
    if i + 1 < |cs| {
      AnchorIs(cs, i + 1);
    }
  }

  lemma SortedPlaces(cs: seq<Child>, i: nat, j: nat)
    requires Sorted(cs) && i < |cs| && j < |cs| && cs[i].anchor < cs[j].anchor
    ensures i < j
  {
  }

  lemma {:induction false} PlaceOf(cs: seq<Child>, x: Byte) returns (i: nat)
    requires Sorted(cs) && EveryByte(cs)
    ensures i < |cs| && cs[i].anchor == x && i >= x
  {
    EntryIsMember(cs, x);
    hide Entry;
    i :| 0 <= i < |cs| && cs[i] == Entry(cs, x).value;
    if x > 0 {
      var j := PlaceOf(cs, x - 1);
      SortedPlaces(cs, j, i);
    }
  }

  // ---------- the loops ----------

  /** get_child */
  method GetChild(cs: seq<Child>, nib: Byte) returns (r: Option<nat>)
    ensures r.None? ==> Entry(cs, nib) == None
    ensures r.Some? ==> r.value < |cs| && Entry(cs, nib) == Some(cs[r.value])
    ensures r.Some? ==> forall i :: 0 <= i < r.value ==> !(cs[i].anchor <= nib <= cs[i].end)
  {
    assert cs[0..] == cs;
    for k := 0 to |cs|
      invariant Entry(cs, nib) == Entry(cs[k..], nib)
      invariant forall i :: 0 <= i < k ==> !(cs[i].anchor <= nib <= cs[i].end)
    {
      if cs[k].anchor <= nib <= cs[k].end {
        return Some(k);
      }
      assert cs[k..][1..] == cs[k + 1..];
    }
    return None;
  }

  /** insert_child: the new entry is swapped down to its place. */
  method InsertChild(cs: seq<Child>, nib: Byte, b: BlockId) returns (r: seq<Child>)
    requires Sorted(cs)
    ensures r == Insert(cs, nib, b)
  {
    hide Insert, Entry;
    var found := GetChild(cs, nib);
    EntryIsMember(cs, nib);
    if found.None? {
      var i := 0;
      while i < |cs| && !(nib < cs[i].anchor)
        invariant i <= |cs|
        invariant forall k :: 0 <= k < i ==> cs[k].anchor < nib
      {
        i := i + 1;
      }
      InsertPlace(cs, nib, b, i);
      r := ShiftIn(cs, i, Child(nib, nib, 1, b));
    } else {
      var k := found.value;
      InsertTouch(cs, nib, b, k);
      r := cs[k := Touch(cs[k], b)];
    }
  }

  /** One more place, and the entry swapped through the rest. */
  method ShiftIn(cs: seq<Child>, place: nat, c: Child) returns (r: seq<Child>)
    requires place <= |cs|
    ensures r == cs[..place] + [c] + cs[place..]
  {
    r := cs + [Child(0, 0, 0, 0)];
    var tmp := c;
    for i := place to |cs| + 1
      invariant |r| == |cs| + 1
      invariant tmp == if i == place then c else if i <= |cs| then cs[i - 1] else tmp
      invariant forall k :: 0 <= k < place ==> r[k] == cs[k]
      invariant forall k :: place <= k < i ==> r[k] == if k == place then c else cs[k - 1]
      invariant forall k :: i <= k < |cs| ==> r[k] == cs[k]
    {
      var swapped := r[i];
      r := r[i := tmp];
      tmp := swapped;
    }
  }

  lemma {:induction false} InsertPlace(cs: seq<Child>, nib: Byte, b: BlockId, i: nat)
    requires Sorted(cs) && i <= |cs|
    requires forall k :: 0 <= k < i ==> cs[k].anchor < nib
    requires i < |cs| ==> nib < cs[i].anchor
    ensures Insert(cs, nib, b) == cs[..i] + [Child(nib, nib, 1, b)] + cs[i..]
  {
    if i > 0 {
      SortedTail(cs);
      InsertCases(cs, nib, b);
      var t, n := cs[1..], [Child(nib, nib, 1, b)];
      InsertPlace(t, nib, b, i - 1);
      hide *;
      assert [cs[0]] + t[..i - 1] == cs[..i] && t[i - 1..] == cs[i..];
      assert [cs[0]] + (t[..i - 1] + n + t[i - 1..]) == ([cs[0]] + t[..i - 1]) + n + t[i - 1..];
    } else if cs != [] {
      InsertCases(cs, nib, b);
      hide *;
      assert cs[..0] == [] && cs[0..] == cs;
    }
  }

  lemma {:induction false} InsertTouch(cs: seq<Child>, nib: Byte, b: BlockId, k: nat)
    requires Sorted(cs) && k < |cs| && cs[k].anchor == nib
    ensures Insert(cs, nib, b) == cs[k := Touch(cs[k], b)]
  {
    if k > 0 {
      assert cs[0].anchor < cs[k].anchor;
      SortedTail(cs);
      InsertTouch(cs[1..], nib, b, k - 1);
    }
  }
}

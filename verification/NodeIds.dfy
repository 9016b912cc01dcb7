/** The 16 bytes of a node id (nodeid.cpp): 13 path bytes, the level, the block id. */
module NodeIds {
  import opened TrieTypes

  const ID_SIZE: nat := 16
  const LEVEL_OFF: nat := PATH_SIZE
  const BLOCK_ID_OFF: nat := PATH_SIZE + 1

  /** The bytes of an id; those past the level are zero. */
  function Buffer(id: NodeId): (s: seq<Byte>)
    requires |id.path| <= PATH_SIZE
    ensures |s| == ID_SIZE && s[LEVEL_OFF] == |id.path|
    ensures s[BLOCK_ID_OFF] == id.blk % 256 && s[BLOCK_ID_OFF + 1] == id.blk / 256
    ensures forall i :: 0 <= i < PATH_SIZE ==> s[i] == if i < |id.path| then id.path[i] else 0
  {
    id.path + ZeroBytes(PATH_SIZE - |id.path|) + [|id.path|] + [id.blk % 256, id.blk / 256]
  }

  /** Comparing the bytes is comparing the ids (operator==). */
  lemma SameBytes(i: NodeId, j: NodeId)
    requires |i.path| <= PATH_SIZE && |j.path| <= PATH_SIZE
    ensures Buffer(i) == Buffer(j) <==> i == j
  {
    if Buffer(i) == Buffer(j) {
      var s, t := Buffer(i), Buffer(j);
      assert s[LEVEL_OFF] == t[LEVEL_OFF];
      forall k | 0 <= k < |i.path|
        ensures i.path[k] == j.path[k]
      {
        assert s[k] == t[k];
      }
      assert i.path == j.path;
      assert i.blk % 256 == j.blk % 256 && i.blk / 256 == j.blk / 256;
    }
  }

  class IdBuffer {
    const buff: array<Byte>

    ghost predicate Is(id: NodeId)
      reads buff
    {
      |id.path| <= PATH_SIZE && buff[..] == Buffer(id)
    }

    /** The constructor for a path; longer paths are cut. */
    constructor (path: seq<Byte>, b: BlockId)
      ensures fresh(buff) && Is(NodeId(if |path| <= PATH_SIZE then path else path[..PATH_SIZE], b))
    {
      var bytes := new Byte[ID_SIZE](i => 0);
      buff := bytes;
      new;
      var n := if |path| <= PATH_SIZE then |path| else PATH_SIZE;
      buff[LEVEL_OFF] := n;
      for i := 0 to n
        invariant buff[LEVEL_OFF] == n && buff[BLOCK_ID_OFF] == 0 && buff[BLOCK_ID_OFF + 1] == 0
        invariant forall k :: 0 <= k < PATH_SIZE ==> buff[k] == if k < i then path[k] else 0
      {
        buff[i] := path[i];
      }
      buff[BLOCK_ID_OFF], buff[BLOCK_ID_OFF + 1] := b % 256, b / 256;
      ghost var id := NodeId(path[..n], b);
      assert forall i :: 0 <= i < ID_SIZE ==> buff[i] == Buffer(id)[i];
    }

    constructor Copy(other: IdBuffer, ghost id: NodeId)
      requires other.Is(id)
      ensures fresh(buff) && Is(id)
    {
      buff := new Byte[other.buff.Length](i requires 0 <= i < other.buff.Length reads other.buff => other.buff[i]);
      new;
      assert buff[..] == other.buff[..];
    }

    method GetBlockId(ghost id: NodeId) returns (b: BlockId)
      requires Is(id)
      ensures b == id.blk
    {
      var s := buff[..];
      var low: int, high: int := s[BLOCK_ID_OFF], s[BLOCK_ID_OFF + 1];
      return low + 256 * high;
    }

    method SetBlockId(b: BlockId, ghost id: NodeId)
      requires Is(id)
      modifies buff
      ensures Is(NodeId(id.path, b))
    {
      ghost var s := buff[..];
      buff[BLOCK_ID_OFF], buff[BLOCK_ID_OFF + 1] := b % 256, b / 256;
      assert forall i :: 0 <= i < ID_SIZE ==> buff[i] == Buffer(NodeId(id.path, b))[i] by {
        assert forall i :: 0 <= i < BLOCK_ID_OFF ==> buff[i] == s[i];
      }
    }

    /** set_child_nibble: past the path, before the level is raised. At level 13 it would hit the level byte. */
    method SetChildNibble(nib: Byte, ghost id: NodeId)
      requires Is(id)
      modifies buff
      ensures buff[..] == Buffer(id)[|id.path| := nib]
      ensures |id.path| == PATH_SIZE ==> buff[LEVEL_OFF] == nib
    {
      ghost var s := buff[..];
      assert s[LEVEL_OFF] == |id.path|;
      var level := buff[LEVEL_OFF];
      buff[level] := nib;
    }

    /** increment_level: the byte past the path joins it. At level 13 there is no such byte. */
    method IncrementLevel(ghost id: NodeId, ghost nib: Byte)
      requires |id.path| <= PATH_SIZE
      requires buff[..] == if |id.path| < PATH_SIZE then Buffer(id)[|id.path| := nib] else Buffer(id)
      modifies buff
      ensures |id.path| < PATH_SIZE ==> Is(Below(id, nib, id.blk))
      ensures |id.path| == PATH_SIZE ==> buff[..] == Buffer(id)[LEVEL_OFF := PATH_SIZE + 1]
    {
      ghost var s := buff[..];
      assert s[LEVEL_OFF] == |id.path|;
      buff[LEVEL_OFF] := buff[LEVEL_OFF] + 1;
      if |id.path| < PATH_SIZE {
        assert forall i :: 0 <= i < ID_SIZE ==> buff[i] == Buffer(Below(id, nib, id.blk))[i] by {
          assert forall i :: 0 <= i < ID_SIZE && i != LEVEL_OFF ==> buff[i] == s[i];
        }
      }
    }

    /** set_self_nibble: the last byte of the path, or the level byte itself at level 14. */
    method SetSelfNibble(nib: Byte, ghost id: NodeId)
      requires buff.Length == ID_SIZE && 0 < buff[LEVEL_OFF] <= PATH_SIZE + 1
      modifies buff
      ensures buff[..] == old(buff[..])[old(buff[LEVEL_OFF]) - 1 := nib]
      ensures old(Is(id)) && |id.path| > 0 ==> Is(NodeId(id.path[..|id.path| - 1] + [nib], id.blk))
    {
      var level := buff[LEVEL_OFF];
      buff[level - 1] := nib;
      if old(Is(id)) && |id.path| > 0 {
        assert old(buff[..])[LEVEL_OFF] == |id.path|;
        LastByte(id, nib);
      }
    }
  }

  lemma LastByte(id: NodeId, nib: Byte)
    requires 0 < |id.path| <= PATH_SIZE
    ensures Buffer(id)[|id.path| - 1 := nib] == Buffer(NodeId(id.path[..|id.path| - 1] + [nib], id.blk))
  {
  }

  lemma PlainLevel(id: NodeId)
    requires |id.path| < PATH_SIZE
    ensures Buffer(id)[|id.path| := 0] == Buffer(id)
  {
  }

  // ---------- the ways a child's id is built ----------

  /** get_next_id and create_account (branch.cpp:170-174, 334-337). */
  method NextId(self: IdBuffer, nib: Byte, b: BlockId, ghost id: NodeId) returns (tmp: IdBuffer)
    requires self.Is(id) && |id.path| < PATH_SIZE
    ensures fresh(tmp) && fresh(tmp.buff) && tmp.Is(Below(id, nib, b))
  {
    tmp := new IdBuffer.Copy(self, id);
    tmp.SetBlockId(b, id);
    tmp.SetChildNibble(nib, NodeId(id.path, b));
    tmp.IncrementLevel(NodeId(id.path, b), nib);
  }

  method PointTo(tmp: IdBuffer, entry: Child, ghost id: NodeId, ghost now: NodeId)
    requires tmp.Is(now) && |now.path| == |id.path| + 1 && now.path[..|id.path|] == id.path
    modifies tmp.buff
    ensures tmp.Is(Below(id, entry.anchor, entry.blk))
  {
    tmp.SetBlockId(entry.blk, now);
    assert tmp.buff[..][LEVEL_OFF] == |now.path|;
    tmp.SetSelfNibble(entry.anchor, NodeId(now.path, entry.blk));
  }

  /** The loops of finalize, prune and justify (branch.cpp:364-378, 421-429, 459-467): the level is
      raised once, then every entry sets the block and the last byte. The keys are the bytes each
      entry is loaded under. */
  method EveryChild(self: IdBuffer, entries: seq<Child>, ghost id: NodeId) returns (keys: seq<seq<Byte>>)
    requires self.Is(id) && |id.path| < PATH_SIZE
    ensures |keys| == |entries|
    ensures forall i :: 0 <= i < |keys| ==> keys[i] == Buffer(Below(id, entries[i].anchor, entries[i].blk))
  {
    var tmp := new IdBuffer.Copy(self, id);
    PlainLevel(id);
    tmp.IncrementLevel(id, 0);
    keys := [];
    ghost var now := Below(id, 0, id.blk);
    for i := 0 to |entries|
      invariant fresh(tmp.buff) && tmp.Is(now) && |now.path| == |id.path| + 1 && now.path[..|id.path|] == id.path
      invariant |keys| == i
      invariant forall k :: 0 <= k < i ==> keys[k] == Buffer(Below(id, entries[k].anchor, entries[k].blk))
    {
      PointTo(tmp, entries[i], id, now);
      now := Below(id, entries[i].anchor, entries[i].blk);
      keys := keys + [tmp.buff[..]];
    }
  }

  /** The key of a leaf's value (leaf.cpp:327-334, 358-366): the id of the leaf's child for the slot. Below
      a leaf at level 13 it is no child's id: the slot takes the place of the level. */
  method ValueKey(self: IdBuffer, slot: Byte, b: BlockId, ghost id: NodeId) returns (key: seq<Byte>)
    requires self.Is(id)
    ensures |id.path| < PATH_SIZE ==> key == Buffer(Below(id, slot, b))
    ensures |id.path| == PATH_SIZE ==> key == Buffer(NodeId(id.path, b))[LEVEL_OFF := slot]
  {
    var tmp := new IdBuffer.Copy(self, id);
    tmp.SetBlockId(b, id);
    ghost var now := NodeId(id.path, b);
    if |id.path| < PATH_SIZE {
      PlainLevel(now);
    }
    assert tmp.buff[..][LEVEL_OFF] == |id.path|;
    tmp.IncrementLevel(now, 0);
    assert tmp.buff[..][LEVEL_OFF] == |id.path| + 1;
    tmp.SetSelfNibble(slot, Below(now, 0, b));
    key := tmp.buff[..];
  }

  /** The ids of a leaf split (leaf.cpp:265-297): the branches down the shared bytes, the new leaf and
      the old leaf. */
  method SplitIds(self: IdBuffer, key: Hash, path: Hash, b: BlockId, shared: nat, ghost id: NodeId)
    returns (branches: seq<seq<Byte>>, added: seq<Byte>, moved: seq<Byte>)
    requires self.Is(id) && id.path <= key && |id.path| + shared < PATH_SIZE
    ensures |branches| == shared + 1
    ensures forall k :: 0 <= k <= shared ==> branches[k] == Buffer(NodeId(key[..|id.path| + k], b))
    ensures var at := NodeId(key[..|id.path| + shared], b);
            added == Buffer(Below(at, key[|at.path|], b)) && moved == Buffer(Below(at, path[|at.path|], b))
  {
    var tmp := new IdBuffer.Copy(self, id);
    tmp.SetBlockId(b, id);
    branches := [];
    for k := 0 to shared
      invariant fresh(tmp.buff) && tmp.Is(NodeId(key[..|id.path| + k], b)) && |branches| == k
      invariant forall j :: 0 <= j < k ==> branches[j] == Buffer(NodeId(key[..|id.path| + j], b))
    {
      branches := branches + [tmp.buff[..]];
      GoDown(tmp, key, NodeId(key[..|id.path| + k], b));
    }
    branches := branches + [tmp.buff[..]];
    ghost var at := NodeId(key[..|id.path| + shared], b);
    added, moved := TwoLeaves(tmp, key, path, at);
  }

  method GoDown(tmp: IdBuffer, key: Hash, ghost now: NodeId)
    requires tmp.Is(now) && |now.path| < PATH_SIZE && now.path <= key
    modifies tmp.buff
    ensures tmp.Is(NodeId(key[..|now.path| + 1], now.blk))
  {
    ghost var s := tmp.buff[..];
    assert s[LEVEL_OFF] == |now.path|;
    var nib := key[tmp.buff[LEVEL_OFF]];
    tmp.SetChildNibble(nib, now);
    tmp.IncrementLevel(now, nib);
    assert now.path + [nib] == key[..|now.path| + 1];
  }

  method TwoLeaves(tmp: IdBuffer, key: Hash, path: Hash, ghost at: NodeId) returns (added: seq<Byte>, moved: seq<Byte>)
    requires tmp.Is(at) && |at.path| < PATH_SIZE
    modifies tmp.buff
    ensures added == Buffer(Below(at, key[|at.path|], at.blk)) && moved == Buffer(Below(at, path[|at.path|], at.blk))
  {
    ghost var s := tmp.buff[..];
    assert s[LEVEL_OFF] == |at.path|;
    var lvl := tmp.buff[LEVEL_OFF];
    PlainLevel(at);
    tmp.IncrementLevel(at, 0);
    assert tmp.buff[..][LEVEL_OFF] == lvl + 1;
    tmp.SetSelfNibble(key[lvl], Below(at, 0, at.blk));
    assert tmp.Is(Below(at, key[lvl], at.blk));
    assert tmp.buff[..][LEVEL_OFF] == lvl + 1;
    added := tmp.buff[..];
    tmp.SetSelfNibble(path[lvl], Below(at, key[lvl], at.blk));
    moved := tmp.buff[..];
  }
}

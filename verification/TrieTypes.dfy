/** Keys, node ids and nodes of the state trie (state_types.h, nodeid.h, branch.h, leaf.h). */
module TrieTypes {
  import opened Scalars

  type Byte = x: int | 0 <= x < 256 witness 0

  function ZeroBytes(n: nat): (r: seq<Byte>)
    ensures |r| == n && forall i :: 0 <= i < n ==> r[i] == 0
  {
    if n == 0 then [] else [0] + ZeroBytes(n - 1)
  }

  /** 32 bytes: a key (its last byte is a slot index), a value hash or a block hash. */
  type Hash = s: seq<Byte> | |s| == 32 witness ZeroBytes(32)

  const ZERO_HASH: Hash := ZeroBytes(32)

  /** Block 0 is the canonical state. */
  type BlockId = x: int | 0 <= x < 65536 witness 0

  const CANONICAL: BlockId := 0

  const LEAF_ORDER: nat := 128
  const BRANCH_ORDER: nat := 256

  /** Path bytes a node id can hold (nodeid.cpp:25). */
  const PATH_SIZE: nat := 13

  /** Bytes of a key that name the account. */
  const ACCOUNT_SIZE: nat := 31

  /** A node's place in the tree, and the block it belongs to. The level is the length of the path. */
  datatype NodeId = NodeId(path: seq<Byte>, blk: BlockId)

  /** The entry of a branch for the bytes anchor..end. */
  datatype Child = Child(anchor: Byte, end: Byte, sk: Scalar, blk: BlockId)

  datatype Node =
    | Branch(commit: Scalar, children: seq<Child>)
    | Leaf(commit: Scalar, path: Hash, slots: seq<Hash>, slotBlks: seq<BlockId>)

  type Store = map<NodeId, Node>

  datatype Code =
    | Ok
    | NotExist
    | LeafIdxZero
    | AlreadyExists
    | InvalidPrevValHash
    | BlockNotExist
    | Deleted
    | LoadNodeErr
    | NotExistRecache

  function Account(key: Hash): (a: seq<Byte>)
    ensures |a| == ACCOUNT_SIZE
  {
    key[..ACCOUNT_SIZE]
  }

  function RootId(b: BlockId): (id: NodeId) {
    NodeId([], b)
  }

  function Below(id: NodeId, nib: Byte, b: BlockId): (r: NodeId) {
    NodeId(id.path + [nib], b)
  }
}

/** The ledger as its caller sees it: block hashes name ids, and every block is a map from accounts
    to slots. Beside it, the ledger as the code runs it, over the node store (ledger.cpp,
    processing.cpp:113-141).
 */
module LedgerSpec {
  import opened Options
  import opened TrieTypes
  import opened TrieOps
  import opened Pruning
  import opened Justifying

  /** block_hash_map_ and current_block_id_ */
  datatype Names = Names(ids: map<Hash, BlockId>, next: nat)

  datatype Op =
    | Create(key: Hash, block: Hash)
    | Write(key: Hash, val: Hash, prevVal: Option<Hash>, block: Hash, prevBlock: Option<Hash>)
    | Justify(block: Hash)
    | Prune(block: Hash)

  /** get_block_id without creation: unknown is 0. */
  function IdOf(names: Names, h: Hash): (b: BlockId) {
    if h in names.ids then names.ids[h] else CANONICAL
  }

  /** get_block_id with creation; ids run from 1. */
  function Named(names: Names, h: Hash): (r: Names)
    requires names.next < 65536
  {
    if h in names.ids then names else Names(names.ids[h := names.next], names.next + 1)
  }

  function PrevOf(names: Names, prev: Option<Hash>): (b: BlockId) {
    match prev
    case None => CANONICAL
    case Some(h) => IdOf(names, h)
  }

  // ---------- what the caller sees ----------

  type View = map<seq<Byte>, seq<Hash>>

  datatype Spec = Spec(names: Names, views: map<BlockId, View>)

  /** Accounts start with every byte there is. */
  ghost predicate FullView(v: View) {
    forall x: Byte :: Starts(v, x)
  }

  /** Some account starts with the byte. */
  ghost predicate Starts(v: View, x: Byte) {
    exists a :: a in v && a != [] && a[0] == x
  }

  /** A block that does not exist yet starts as its predecessor, or empty if that is full; a predecessor
      that does not exist is empty. */
  ghost function OpenView(views: map<BlockId, View>, b: BlockId, prev: BlockId): (r: map<BlockId, View>)
    ensures b in r
  {
    if b in views then views
    else if prev in views then views[b := if FullView(views[prev]) then map[] else views[prev]]
    else views[prev := map[]][b := map[]]
  }

  function ReadView(v: View, key: Hash): (r: Option<seq<Hash>>) {
    if Account(key) in v then Some(v[Account(key)]) else None
  }

  function CreateView(v: View, key: Hash): (r: (Code, View)) {
    if Account(key) in v then (AlreadyExists, v)
    else (Ok, v[Account(key) := FreshSlots(key[ACCOUNT_SIZE := 0])])
  }

  function SetSlot(slots: seq<Hash>, i: nat, val: Hash): (r: seq<Hash>)
    requires i < |slots|
  {
    slots[i := val]
  }

  function WriteView(v: View, key: Hash, val: Hash, prevVal: Option<Hash>): (r: (Code, View)) {
    var rc := ReplaceCode(ReadView(v, key), key[ACCOUNT_SIZE], prevVal);
    (rc, if rc == Ok then v[Account(key) := SetSlot(v[Account(key)], key[ACCOUNT_SIZE], val)] else v)
  }

  /** Only canonical is left: as the block was, or as it was itself if the block has no accounts. */
  function JustifiedViews(views: map<BlockId, View>, b: BlockId): (r: map<BlockId, View>)
    requires b in views
  {
    if views[b] != map[] then map[CANONICAL := views[b]]
    else if CANONICAL in views then map[CANONICAL := views[CANONICAL]]
    else map[]
  }

  ghost function SpecStep(s: Spec, op: Op): (r: (Code, Spec))
    requires s.names.next < 65536
  {
    match op
    case Create(key, block) =>
      var names := Named(s.names, block);
      var b := IdOf(names, block);
      var views := OpenView(s.views, b, CANONICAL);
      var (rc, v) := CreateView(views[b], key);
      (rc, Spec(names, views[b := v]))
    case Write(key, val, prevVal, block, prevBlock) =>
      var names := Named(s.names, block);
      var b := IdOf(names, block);
      var views := OpenView(s.views, b, PrevOf(names, prevBlock));
      var (rc, v) := WriteView(views[b], key, val, prevVal);
      (rc, Spec(names, views[b := v]))
    case Justify(block) =>
      var b := IdOf(s.names, block);
      if b == CANONICAL then (BlockNotExist, s)
      else
        var views := OpenView(s.views, b, CANONICAL);
        (Ok, Spec(s.names, JustifiedViews(views, b)))
    case Prune(block) =>
      var b := IdOf(s.names, block);
      if b == CANONICAL then (BlockNotExist, s)
      else
        var views := OpenView(s.views, b, CANONICAL);
        (Ok, Spec(Names(s.names.ids - {block}, s.names.next), views - {b}))
  }

  // ---------- what the code does ----------

  datatype State = State(names: Names, store: Store)

  /** A branch written to bytes and read back: the number of children is one byte. */
  function Recoded(n: Node): (r: Node) {
    match n
    case Leaf(_, _, _, _) => n
    case Branch(commit, cs) => Branch(commit, cs[..|cs| % 256])
  }

  /** get_root: a new block's root is the re-encoded root of its predecessor. */
  function GetRoot(st: Store, b: BlockId, prev: BlockId): (r: Store)
    ensures RootId(b) in r
  {
    if RootId(b) in st then st
    else if RootId(prev) in st then st[RootId(b) := Recoded(st[RootId(prev)])]
    else st[RootId(prev) := Branch(0, [])][RootId(b) := Branch(0, [])]
  }

  function Step(s: State, op: Op): (r: (Code, State))
    requires s.names.next < 65536
  {
    match op
    case Create(key, block) =>
      var names := Named(s.names, block);
      var b := IdOf(names, block);
      var (rc, st) := CreateAt(GetRoot(s.store, b, CANONICAL), RootId(b), key[ACCOUNT_SIZE := 0], b);
      (rc, State(names, st))
    case Write(key, val, prevVal, block, prevBlock) =>
      var names := Named(s.names, block);
      var b := IdOf(names, block);
      var (rc, st) := ReplaceAt(GetRoot(s.store, b, PrevOf(names, prevBlock)), RootId(b), key, val, prevVal, b);
      (rc, State(names, st))
    case Justify(block) =>
      var b := IdOf(s.names, block);
      if b == CANONICAL then (BlockNotExist, s)
      else
        var (rc, st) := JustifyAt(GetRoot(s.store, b, CANONICAL), RootId(b), b);
        (if rc == Deleted then Ok else rc, State(s.names, st))
    case Prune(block) =>
      var b := IdOf(s.names, block);
      if b == CANONICAL then (BlockNotExist, s)
      else (Ok, State(Names(s.names.ids - {block}, s.names.next),
          PruneAt(GetRoot(s.store, b, CANONICAL), RootId(b), b)))
  }
}

/** The operations of BPlusTreeImpl.java as functions of the tree's state:
    what `create`, `insert`, `get`, `delete`, `getStat` and `close` leave
    behind and answer, including the state they leave when they throw part
    way. The class in tree.dfy computes exactly these; the lemmas here say
    what they mean. */
module TreeOps {
  import opened Types
  import opened Pages
  import opened NodeBase
  import opened TreeSpec
  import Leaves
  import LeafCodec
  import Internals
  import Disk

  /** The fields of a `BPlusTreeImpl`: the pages as decoded nodes, the root
      page id, the next page id to allocate, the split and merge counters,
      and the metadata block as last written. */
  datatype Db = Db(nodes: map<int, Node>, root: int, next: int, splits: int, merges: int, meta: seq<Byte>)

  /** Java `int` fields, a well-formed page store and a full metadata block. */
  predicate DbWf(db: Db, maxKeys: int) {
    && StoreWf(db.nodes, maxKeys)
    && IsInt32(db.root) && IsInt32(db.next) && IsInt32(db.splits) && IsInt32(db.merges)
    && |db.meta| == Disk.METADATA_SIZE
  }

  /** `saveMetadata`. */
  function Saved(db: Db): Db
    requires IsInt32(db.root) && IsInt32(db.next) && IsInt32(db.splits) && IsInt32(db.merges)
  {
    db.(meta := MetadataBytes(db.root, db.next, db.splits, db.merges))
  }

  // ---------------------------------------------------------------------
  // create and close
  // ---------------------------------------------------------------------

  /** What `create` loads: with the magic number, the four fields from the
      metadata block; otherwise an empty tree whose metadata is written. */
  function Open(stored: map<int, Node>, meta: seq<Byte>): Db
    requires |meta| == Disk.METADATA_SIZE
  {
    if MetaInt(meta, 0) == MAGIC then
      Db(stored, MetaInt(meta, 4), MetaInt(meta, 8), MetaInt(meta, 12), MetaInt(meta, 16), meta)
    else Saved(Db(stored, -1, 0, 0, 0, meta))
  }

  /** `create`: the loaded state and, when the loaded root is a page, the
      outcome and warnings of `validateTreeStructure`. */
  function CreateOp(maxKeys: int, stored: map<int, Node>, meta: seq<Byte>): (r: (Db, Check))
    requires StoreWf(stored, maxKeys) && |meta| == Disk.METADATA_SIZE
    ensures DbWf(r.0, maxKeys)
    ensures MetaInt(meta, 0) != MAGIC ==> r.0.root == -1 && r.0.next == 0 && r.1 == Check(Pass, [])
  {
    var db := Open(stored, meta);
    if db.root >= 0 then (db, Validate(stored, maxKeys, db.root, -1, {}, 0)) else (db, Check(Pass, []))
  }

  /** Closing saves the metadata, and creating the tree again from the
      saved block restores the root, next page id and both counters. */
  lemma ReopenRestores(db: Db, maxKeys: int)
    requires DbWf(db, maxKeys)
    ensures Open(db.nodes, Saved(db).meta) == Saved(db)
  {
    MetadataRoundTrip(db.root, db.next, db.splits, db.merges);
  }

  // ---------------------------------------------------------------------
  // Writes the engine issues
  // ---------------------------------------------------------------------

  /** `writePage` of a serialized node at a Java `int` page id: the page
      then reads back as `deserialize` makes of it, a leaf already in that
      form reads back as written, and no other page changes. */
  function Put(store: map<int, Node>, maxKeys: int, id: int, n: Node): (r: map<int, Node>)
    requires StoreWf(store, maxKeys) && 0 <= id && IsInt32(id) && Writable(n, maxKeys)
    ensures StoreWf(r, maxKeys) && Load(r, maxKeys, id) == Stored(n, maxKeys)
    ensures n.LeafPage? && LeafCodec.AsStored(n.leaf) ==> Load(r, maxKeys, id) == n
    ensures forall x :: x != id ==> Load(r, maxKeys, x) == Load(store, maxKeys, x)
  {
    store[id := Stored(n, maxKeys)]
  }

  /** An insert into an internal node with room keeps its keys non-empty
      when the inserted key is. */
  lemma InsertAtNonEmpty(s: Internals.InternalState, key: Str, left: int, right: int)
    requires Internals.Wf(s) && NonEmpty(s.keys, s.keyCount) && s.keyCount < |s.keys| && key != []
    requires IsInt32(left) && IsInt32(right)
    ensures NonEmpty(Internals.InsertAt(s, key, left, right).keys, s.keyCount + 1)
  {
  }

  /** Both halves of an internal split keep their keys non-empty. */
  lemma SplitNonEmpty(s: Internals.InternalState)
    requires Internals.Wf(s) && NonEmpty(s.keys, s.keyCount) && s.keyCount >= 3
    ensures NonEmpty(Internals.KeptHalf(s).keys, Internals.KeptHalf(s).keyCount)
    ensures NonEmpty(Internals.MovedHalf(s).keys, Internals.MovedHalf(s).keyCount)
  {
  }

  // ---------------------------------------------------------------------
  // insertToParent
  // ---------------------------------------------------------------------

  /** How many parent levels `insertToParent` may climb. Every internal
      node the engine writes has at least two children, so a tree of Java
      `int` page ids is less than 32 levels high; `insertToParent` itself has no bound. */
  const PARENT_FUEL: nat := 32

  /** `insertToParent(left, key, right)`, for the pages `leftId` and
      `rightId` with `leftParent` the left node's parent pointer. */
  function InsertUp(db: Db, maxKeys: int, leftId: int, leftParent: int, key: Str, rightId: int, fuel: nat)
    : (r: (Db, Outcome))
    requires DbWf(db, maxKeys) && IsInt32(leftParent) && key != []
    requires 0 <= leftId && IsInt32(leftId) && 0 <= rightId && IsInt32(rightId)
    ensures DbWf(r.0, maxKeys)
    decreases fuel, 2
  {
    if fuel == 0 then (db, Fail(DepthExceeded))
    else if leftParent == -1 then NewRoot(db, maxKeys, leftId, key, rightId)
    else if leftParent < 0 then (db, Fail(InvalidPageId))
    else match Load(db.nodes, maxKeys, leftParent)
      case InternalPage(p) =>
        if !Internals.IsFull(p) then (AddToParent(db, maxKeys, leftParent, p, key, leftId, rightId), Pass)
        else SplitParent(db, maxKeys, leftParent, p, key, leftId, rightId, fuel)
      case _ => (db, Fail(UnknownNodeType))
  }

  /** The root branch: a fresh page id (refused when it equals a child's),
      a new internal node holding `key` between the two children, both
      children re-pointed at it, and the metadata saved. */
  function NewRoot(db: Db, maxKeys: int, leftId: int, key: Str, rightId: int): (r: (Db, Outcome))
    requires DbWf(db, maxKeys) && key != []
    requires 0 <= leftId && IsInt32(leftId) && 0 <= rightId && IsInt32(rightId)
    ensures DbWf(r.0, maxKeys)
  {
    var id := db.next;
    var db1 := db.(next := Inc32(db.next));
    if leftId == id || rightId == id then (db1, Fail(RootIdConflict))
    else if id < 0 then (db1, Fail(InvalidPageId))
    else
      var empty := Internals.Fresh(maxKeys);
      InsertAtNonEmpty(empty, key, leftId, rightId);
      var root := Internals.InsertKeyChild(empty, key, leftId, rightId).value;
      var nodes := SetParent(SetParent(Put(db1.nodes, maxKeys, id, InternalPage(root)), maxKeys, leftId, id), maxKeys, rightId, id);
      (Saved(db1.(nodes := nodes, root := id)), Pass)
  }

  /** The branch for a parent with room: the key and the right child go
      into the parent page, and the right child is re-pointed at it. */
  function AddToParent(db: Db, maxKeys: int, pid: int, p: Internals.InternalState, key: Str,
                       leftId: int, rightId: int): (r: Db)
    requires DbWf(db, maxKeys) && 0 <= pid && IsInt32(pid)
    requires Load(db.nodes, maxKeys, pid) == InternalPage(p) && !Internals.IsFull(p) && key != []
    requires 0 <= leftId && IsInt32(leftId) && 0 <= rightId && IsInt32(rightId)
    ensures DbWf(r, maxKeys)
  {
    InsertAtNonEmpty(p, key, leftId, rightId);
    var p' := Internals.InsertKeyChild(p, key, leftId, rightId).value;
    db.(nodes := SetParent(Put(db.nodes, maxKeys, pid, InternalPage(p')), maxKeys, rightId, pid))
  }

  /** A full parent with the key inserted one slot beyond capacity, split:
      (the kept half, the moved half, the middle key). */
  function SplitInto(p: Internals.InternalState, maxKeys: int, key: Str, leftId: int, rightId: int)
    : (r: (Internals.InternalState, Internals.InternalState, Str))
    requires NodeWf(InternalPage(p), maxKeys) && ValidMaxKeys(maxKeys) && Internals.IsFull(p) && key != []
    requires IsInt32(leftId) && IsInt32(rightId)
    ensures NodeWf(InternalPage(r.0), maxKeys) && NodeWf(InternalPage(r.1), maxKeys)
    ensures r.0.parent == p.parent && r.2 != []
  {
    InsertAtNonEmpty(p, key, leftId, rightId);
    var p1 := Internals.InsertKeyChildForSplit(p, key, leftId, rightId).value;
    SplitNonEmpty(p1);
    (Internals.KeptHalf(p1), Internals.MovedHalf(p1), p1.keys[p1.keyCount / 2].value)
  }

  /** The branch for a full parent: the key goes in one slot beyond
      capacity and the node splits. */
  function SplitParent(db: Db, maxKeys: int, pid: int, p: Internals.InternalState, key: Str,
                       leftId: int, rightId: int, fuel: nat): (r: (Db, Outcome))
    requires DbWf(db, maxKeys) && 0 <= pid && IsInt32(pid) && fuel > 0
    requires Load(db.nodes, maxKeys, pid) == InternalPage(p) && Internals.IsFull(p) && key != []
    requires 0 <= leftId && IsInt32(leftId) && 0 <= rightId && IsInt32(rightId)
    ensures DbWf(r.0, maxKeys)
    decreases fuel, 1
  {
    var (kept, moved, mid) := SplitInto(p, maxKeys, key, leftId, rightId);
    SplitClimb(db, maxKeys, pid, kept, moved, mid, fuel)
  }

  /** The rest of that branch: a page is allocated for the upper half, the
      children of both halves are re-pointed, both halves are written, the
      split is counted, and the middle key climbs to the parent's parent. */
  function SplitClimb(db: Db, maxKeys: int, pid: int, kept: Internals.InternalState,
                      moved: Internals.InternalState, mid: Str, fuel: nat): (r: (Db, Outcome))
    requires DbWf(db, maxKeys) && 0 <= pid && IsInt32(pid) && fuel > 0 && mid != []
    requires NodeWf(InternalPage(kept), maxKeys) && NodeWf(InternalPage(moved), maxKeys)
    ensures DbWf(r.0, maxKeys)
    decreases fuel, 0
  {
    var newId := db.next;
    var (nodes, o) := SplitWrites(db.nodes, maxKeys, pid, kept, moved, newId);
    var db1 := db.(nodes := nodes, next := Inc32(db.next));
    if o.Fail? then (db1, o)
    else InsertUp(db1.(splits := Inc32(db.splits)), maxKeys, pid, kept.parent, mid, newId, fuel - 1)
  }

  /** The writes of the full-parent branch before the climb: the children
      of the kept half re-pointed at `pid`, those of the moved half at
      `newId`, then both halves written; the first failure stops it, and a
      negative `newId` is refused after the kept half is written. */
  function SplitWrites(store: map<int, Node>, maxKeys: int, pid: int, kept: Internals.InternalState,
                       moved: Internals.InternalState, newId: int): (r: (map<int, Node>, Outcome))
    requires StoreWf(store, maxKeys) && 0 <= pid && IsInt32(pid) && IsInt32(newId)
    requires NodeWf(InternalPage(kept), maxKeys) && NodeWf(InternalPage(moved), maxKeys)
    ensures StoreWf(r.0, maxKeys)
  {
    var (n2, o2) := Reparent(store, maxKeys, Internals.Children(kept), pid);
    if o2.Fail? then (n2, o2)
    else
      var (n3, o3) := Reparent(n2, maxKeys, Internals.Children(moved), newId);
      if o3.Fail? then (n3, o3)
      else if newId < 0 then (Put(n3, maxKeys, pid, InternalPage(kept)), Fail(InvalidPageId))
      else (Put(Put(n3, maxKeys, pid, InternalPage(kept)), maxKeys, newId, InternalPage(moved)), Pass)
  }

  // ---------------------------------------------------------------------
  // insert
  // ---------------------------------------------------------------------

  /** `insertHelper` once it has reached leaf `id` holding `s`: a leaf with
      room takes the entry; a full one goes through the full-leaf path, the
      new leaf is written at a freshly allocated page, the split is counted
      and the new leaf's first key goes to the parent. A leaf that does
      not fit its page (`LeafCodec.EncodeOk`: exactly when `serialize`
      throws) stops the insert there with the page left as it was. */
  function LeafInsert(db: Db, maxKeys: int, id: int, s: Leaves.LeafState, key: Str,
                      value: Option<seq<Str>>, rowId: Str): (r: (Db, Outcome))
    requires DbWf(db, maxKeys) && 0 <= id && IsInt32(id) && Load(db.nodes, maxKeys, id) == LeafPage(s)
    ensures DbWf(r.0, maxKeys)
  {
    if !Leaves.IsFull(s) then
      Leaves.InsertRanked(s, key, value, rowId);
      var s' := Leaves.Insert(s, key, value, rowId).value;
      if !LeafCodec.Fits(s') then (db, Fail(PageSpaceExhausted))
      else (db.(nodes := Put(db.nodes, maxKeys, id, LeafPage(s'))), Pass)
    else
      var newId := db.next;
      var db1 := db.(next := Inc32(db.next));
      SplitLeafInsertRanked(s, key, value, rowId, newId);
      var (l, r) := SplitLeafInsert(s, key, value, rowId, newId);
      if !LeafCodec.Fits(l) then (db1, Fail(PageSpaceExhausted))
      else
        var n1 := Put(db1.nodes, maxKeys, id, LeafPage(l));
        if newId < 0 then (db1.(nodes := n1), Fail(InvalidPageId))
        else if !LeafCodec.Fits(r) then (db1.(nodes := n1), Fail(PageSpaceExhausted))
        else
          var n2 := Put(n1, maxKeys, newId, LeafPage(r));
          InsertUp(db1.(nodes := n2, splits := Inc32(db.splits)), maxKeys, id, l.parent, r.keys[0].value, newId, PARENT_FUEL)
  }

  /** `insertHelper(id, ..., depth, visited)`: the guarded descent, then the
      leaf step; a negative page id is an `IllegalStateException`. */
  function InsertFrom(db: Db, maxKeys: int, id: int, key: Str, value: Option<seq<Str>>, rowId: Str,
                      depth: nat, visited: set<int>): (r: (Db, Outcome))
    requires DbWf(db, maxKeys)
    ensures DbWf(r.0, maxKeys)
  {
    match Descend(db.nodes, maxKeys, id, key, depth, visited)
    case AtLeaf(l, s) => LeafInsert(db, maxKeys, l, s, key, value, rowId)
    case Missing => (db, Fail(InvalidPageId))
    case Stopped(e) => (db, Fail(e))
  }

  /** One step of `InsertFrom` through an internal page. */
  lemma InsertFromUnfolds(db: Db, maxKeys: int, id: int, key: Str, value: Option<seq<Str>>, rowId: Str,
                          depth: nat, visited: set<int>, s: Internals.InternalState)
    requires DbWf(db, maxKeys) && depth <= MAX_DEPTH && 0 <= id && id !in visited
    requires Load(db.nodes, maxKeys, id) == InternalPage(s)
    requires 0 <= Internals.FindChild(s, key) && Internals.FindChild(s, key) != id
    ensures InsertFrom(db, maxKeys, id, key, value, rowId, depth, visited)
            == InsertFrom(db, maxKeys, Internals.FindChild(s, key), key, value, rowId, depth + 1, visited + {id})
  {
  }

  /** `insert(key, value, rowId)`: an empty tree gets a root leaf at a
      freshly allocated page and saves the metadata; otherwise the entry is
      inserted from the root. When the root leaf does not fit its page the
      root page id and the next page id have moved on, nothing is written
      and the metadata is not saved. */
  function InsertOp(db: Db, maxKeys: int, key: Str, value: Option<seq<Str>>, rowId: Str): (r: (Db, Outcome))
    requires DbWf(db, maxKeys)
    ensures DbWf(r.0, maxKeys)
  {
    if db.root == -1 then
      var id := db.next;
      var db1 := db.(root := id, next := Inc32(db.next));
      if id < 0 then (db1, Fail(InvalidPageId))
      else
        Leaves.OrderedIsRanked(Leaves.Fresh(maxKeys));
        Leaves.InsertRanked(Leaves.Fresh(maxKeys), key, value, rowId);
        var leaf := Leaves.Insert(Leaves.Fresh(maxKeys), key, value, rowId).value;
        if !LeafCodec.Fits(leaf) then (db1, Fail(PageSpaceExhausted))
        else (Saved(db1.(nodes := Put(db1.nodes, maxKeys, id, LeafPage(leaf)))), Pass)
    else InsertFrom(db, maxKeys, db.root, key, value, rowId, 0, {})
  }

  // ---------------------------------------------------------------------
  // get and delete
  // ---------------------------------------------------------------------

  /** `searchHelper`: the leaf's search, nothing below a negative id, or
      the exception that stopped the descent. */
  function SearchFrom(db: Db, maxKeys: int, id: int, key: Str, depth: nat, visited: set<int>)
    : (r: Result<seq<Option<seq<Str>>>>)
    requires DbWf(db, maxKeys)
    ensures r.Ok? ==> |r.value| <= 1
  {
    match Descend(db.nodes, maxKeys, id, key, depth, visited)
    case AtLeaf(_, s) => Ok(Leaves.Search(s, key))
    case Missing => Ok([])
    case Stopped(e) => Err(e)
  }

  /** `get(key)`: nothing in an empty tree, else the search from the root. */
  function GetOp(db: Db, maxKeys: int, key: Str): (r: Result<seq<Option<seq<Str>>>>)
    requires DbWf(db, maxKeys)
    ensures r.Ok? ==> |r.value| <= 1
  {
    if db.root == -1 then Ok([]) else SearchFrom(db, maxKeys, db.root, key, 0, {})
  }

  /** `deleteHelper`: the leaf is rewritten only when the key was removed;
      a negative id answers false; both bad-child cases raise the same
      exception. */
  function DeleteFrom(db: Db, maxKeys: int, id: int, key: Str, depth: nat, visited: set<int>)
    : (r: (Db, Result<bool>))
    requires DbWf(db, maxKeys)
    ensures DbWf(r.0, maxKeys)
  {
    match Descend(db.nodes, maxKeys, id, key, depth, visited)
    case AtLeaf(l, s) =>
      Leaves.RemoveRanked(s, key);
      var (s', removed) := Leaves.Remove(s, key);
      if removed then (db.(nodes := Put(db.nodes, maxKeys, l, LeafPage(s'))), Ok(true)) else (db, Ok(false))
    case Missing => (db, Ok(false))
    case Stopped(e) => (db, Err(if e == SelfReference then InvalidChild else e))
  }

  /** One step of `DeleteFrom` through an internal page. */
  lemma DeleteFromUnfolds(db: Db, maxKeys: int, id: int, key: Str, depth: nat, visited: set<int>,
                          s: Internals.InternalState)
    requires DbWf(db, maxKeys) && depth <= MAX_DEPTH && 0 <= id && id !in visited
    requires Load(db.nodes, maxKeys, id) == InternalPage(s)
    requires 0 <= Internals.FindChild(s, key) && Internals.FindChild(s, key) != id
    ensures DeleteFrom(db, maxKeys, id, key, depth, visited)
            == DeleteFrom(db, maxKeys, Internals.FindChild(s, key), key, depth + 1, visited + {id})
  {
  }

  /** `delete(key)`: nothing on an empty tree, else the delete from the root. */
  function DeleteOp(db: Db, maxKeys: int, key: Str): (r: (Db, Outcome))
    requires DbWf(db, maxKeys)
    ensures DbWf(r.0, maxKeys)
  {
    if db.root == -1 then (db, Pass)
    else
      var (db', d) := DeleteFrom(db, maxKeys, db.root, key, 0, {});
      (db', if d.Err? then Fail(d.error) else Pass)
  }

  // ---------------------------------------------------------------------
  // getStat
  // ---------------------------------------------------------------------

  /** `Statistics`, with the fill rate as its two operands. */
  datatype Statistics = Statistics(totalSlots: int, usedSlots: int, height: int, nodeCount: int,
                                   splitCount: int, mergeCount: int)

  /** `getStat()`: zeros for an empty tree, else the walk from the root,
      with the counters. */
  function StatOp(db: Db, maxKeys: int): (r: Statistics)
    requires DbWf(db, maxKeys)
  {
    if db.root == -1 then Statistics(0, 0, 0, 0, db.splits, db.merges)
    else
      var st := TreeStats(db.nodes, maxKeys, db.root, 0, {});
      Statistics(st.slots, st.used, st.height, st.nodes, db.splits, db.merges)
  }

  // ---------------------------------------------------------------------
  // Leaves across the operations
  // ---------------------------------------------------------------------

  /** Every leaf page keeps its keys strictly increasing. */
  ghost predicate LeavesOrdered(store: map<int, Node>) {
    forall id :: id in store && store[id].LeafPage? ==> Leaves.Ordered(store[id].leaf)
  }

  /** Every page pointer a node holds lies below `bound`: a leaf's parent
      and next leaf, an internal node's parent and every child slot. */
  predicate PointsBelow(n: Node, bound: int) {
    match n
    case LeafPage(s) => s.parent < bound && s.next < bound
    case InternalPage(s) => s.parent < bound && forall i :: 0 <= i < |s.children| ==> s.children[i] < bound
    case OtherPage(_) => true
  }

  /** Every page of the store, and every pointer it holds, lies below `bound`. */
  predicate StoreBelow(store: map<int, Node>, bound: int) {
    forall id :: id in store ==> id < bound && PointsBelow(store[id], bound)
  }

  /** Every page id in use came from the allocator: the pages, the root
      and every pointer a page holds lie below the next page id. */
  predicate Allocated(db: Db) {
    db.root < db.next && StoreBelow(db.nodes, db.next)
  }

  /** Leaf `y` is leaf `x`, except perhaps for its parent pointer. */
  predicate SameLeaf(x: Leaves.LeafState, y: Leaves.LeafState) {
    y.(parent := x.parent) == x
  }

  /** The leaf stored at page `id`, if any. */
  ghost function LeafOf(store: map<int, Node>, id: int): Option<Leaves.LeafState> {
    if id in store && store[id].LeafPage? then Some(store[id].leaf) else None
  }

  /** Every leaf page of `b` was already a leaf page of `a`, with the same
      entries and next link. */
  ghost predicate LeavesFrom(b: map<int, Node>, a: map<int, Node>) {
    forall id {:trigger LeafOf(b, id)} :: LeafOf(b, id).Some? ==>
      LeafOf(a, id).Some? && SameLeaf(LeafOf(a, id).value, LeafOf(b, id).value)
  }

  /** Every leaf page of `a` below page id `bound` is still a leaf page of
      `b`, with the same entries and next link. */
  ghost predicate LeavesKept(a: map<int, Node>, b: map<int, Node>, bound: int) {
    forall id {:trigger LeafOf(a, id)} :: LeafOf(a, id).Some? && id < bound ==>
      LeafOf(b, id).Some? && SameLeaf(LeafOf(a, id).value, LeafOf(b, id).value)
  }

  lemma FromTrans(a: map<int, Node>, b: map<int, Node>, c: map<int, Node>)
    requires LeavesFrom(b, a) && LeavesFrom(c, b)
    ensures LeavesFrom(c, a)
  {
  }

  lemma KeptTrans(a: map<int, Node>, b: map<int, Node>, c: map<int, Node>, bound: int, bound': int)
    requires LeavesKept(a, b, bound) && LeavesKept(b, c, bound') && bound <= bound'
    ensures LeavesKept(a, c, bound)
  {
  }

  /** A store whose leaves all come from an ordered store is ordered. */
  lemma OrderedFrom(a: map<int, Node>, b: map<int, Node>, maxKeys: int)
    requires LeavesOrdered(a) && LeavesFrom(b, a) && StoreWf(b, maxKeys)
    ensures LeavesOrdered(b)
  {
    forall id | id in b && b[id].LeafPage?
      ensures Leaves.Ordered(b[id].leaf)
    {
      assert LeafOf(b, id).Some?;
      assert b[id].leaf.keys == a[id].leaf.keys;
    }
  }

  lemma SetParentLeaves(store: map<int, Node>, maxKeys: int, id: int, parent: int, bound: int)
    requires StoreWf(store, maxKeys) && 0 <= id && IsInt32(id) && IsInt32(parent)
    ensures LeavesFrom(SetParent(store, maxKeys, id, parent), store)
    ensures LeavesKept(store, SetParent(store, maxKeys, id, parent), bound)
  {
  }

  lemma PutInternalLeaves(store: map<int, Node>, maxKeys: int, id: int, x: Internals.InternalState, bound: int)
    requires StoreWf(store, maxKeys) && 0 <= id && IsInt32(id) && NodeWf(InternalPage(x), maxKeys)
    requires LeafOf(store, id).Some? ==> bound <= id
    ensures LeavesFrom(Put(store, maxKeys, id, InternalPage(x)), store)
    ensures LeavesKept(store, Put(store, maxKeys, id, InternalPage(x)), bound)
  {
  }

  /** The reparenting loop only changes parent pointers. */
  lemma {:induction false} ReparentLeaves(store: map<int, Node>, maxKeys: int, ids: seq<int>, parent: int, bound: int)
    requires StoreWf(store, maxKeys) && IsInt32(parent)
    requires forall i :: 0 <= i < |ids| ==> IsInt32(ids[i])
    ensures LeavesFrom(Reparent(store, maxKeys, ids, parent).0, store)
    ensures LeavesKept(store, Reparent(store, maxKeys, ids, parent).0, bound)
    decreases |ids|
  {
    if |ids| > 0 {
      var front := ids[..|ids| - 1];
      var (st, o) := Reparent(store, maxKeys, front, parent);
      ReparentLeaves(store, maxKeys, front, parent, bound);
      var id := ids[|ids| - 1];
      if o.Pass? && id >= 0 {
        SetParentLeaves(st, maxKeys, id, parent, bound);
        assert Reparent(store, maxKeys, ids, parent).0 == SetParent(st, maxKeys, id, parent);
        FromTrans(store, st, SetParent(st, maxKeys, id, parent));
        KeptTrans(store, st, SetParent(st, maxKeys, id, parent), bound, bound);
      }
    }
  }

  lemma NewRootLeaves(db: Db, maxKeys: int, leftId: int, key: Str, rightId: int)
    requires DbWf(db, maxKeys) && key != []
    requires 0 <= leftId && IsInt32(leftId) && 0 <= rightId && IsInt32(rightId)
    ensures LeavesFrom(NewRoot(db, maxKeys, leftId, key, rightId).0.nodes, db.nodes)
    ensures LeavesKept(db.nodes, NewRoot(db, maxKeys, leftId, key, rightId).0.nodes, db.next)
  {
    var id := db.next;
    if leftId != id && rightId != id && id >= 0 {
      var empty := Internals.Fresh(maxKeys);
      InsertAtNonEmpty(empty, key, leftId, rightId);
      var root := Internals.InsertKeyChild(empty, key, leftId, rightId).value;
      var n1 := Put(db.nodes, maxKeys, id, InternalPage(root));
      var n2 := SetParent(n1, maxKeys, leftId, id);
      var n3 := SetParent(n2, maxKeys, rightId, id);
      PutInternalLeaves(db.nodes, maxKeys, id, root, db.next);
      SetParentLeaves(n1, maxKeys, leftId, id, db.next);
      SetParentLeaves(n2, maxKeys, rightId, id, db.next);
      FromTrans(db.nodes, n1, n2);
      FromTrans(db.nodes, n2, n3);
      KeptTrans(db.nodes, n1, n2, db.next, db.next);
      KeptTrans(db.nodes, n2, n3, db.next, db.next);
    }
  }

  lemma AddToParentLeaves(db: Db, maxKeys: int, pid: int, p: Internals.InternalState, key: Str,
                          leftId: int, rightId: int, bound: int)
    requires DbWf(db, maxKeys) && 0 <= pid && IsInt32(pid)
    requires Load(db.nodes, maxKeys, pid) == InternalPage(p) && !Internals.IsFull(p) && key != []
    requires 0 <= leftId && IsInt32(leftId) && 0 <= rightId && IsInt32(rightId)
    ensures LeavesFrom(AddToParent(db, maxKeys, pid, p, key, leftId, rightId).nodes, db.nodes)
    ensures LeavesKept(db.nodes, AddToParent(db, maxKeys, pid, p, key, leftId, rightId).nodes, bound)
  {
    InsertAtNonEmpty(p, key, leftId, rightId);
    var p' := Internals.InsertKeyChild(p, key, leftId, rightId).value;
    var n1 := Put(db.nodes, maxKeys, pid, InternalPage(p'));
    PutInternalLeaves(db.nodes, maxKeys, pid, p', bound);
    SetParentLeaves(n1, maxKeys, rightId, pid, bound);
    FromTrans(db.nodes, n1, SetParent(n1, maxKeys, rightId, pid));
    KeptTrans(db.nodes, n1, SetParent(n1, maxKeys, rightId, pid), bound, bound);
  }

  /** `insertToParent` writes no leaf: every leaf it leaves behind was a
      leaf before, with the same entries and next link. As long as the
      page ids it may allocate stay below 2^31 - 1, it also keeps every leaf
      below the next page id. */
  lemma {:induction false} InsertUpLeaves(db: Db, maxKeys: int, leftId: int, leftParent: int, key: Str,
                                          rightId: int, fuel: nat) returns (b: map<int, Node>)
    requires DbWf(db, maxKeys) && IsInt32(leftParent) && key != []
    requires 0 <= leftId && IsInt32(leftId) && 0 <= rightId && IsInt32(rightId)
    ensures b == InsertUp(db, maxKeys, leftId, leftParent, key, rightId, fuel).0.nodes
    ensures LeavesFrom(b, db.nodes)
    ensures 0 <= db.next && db.next + fuel <= 0x7fff_ffff ==> LeavesKept(db.nodes, b, db.next)
    decreases fuel, 3
  {
    b := InsertUp(db, maxKeys, leftId, leftParent, key, rightId, fuel).0.nodes;
    if fuel > 0 {
      if leftParent == -1 {
        NewRootLeaves(db, maxKeys, leftId, key, rightId);
      } else if leftParent >= 0 && Load(db.nodes, maxKeys, leftParent).InternalPage? {
        var p := Load(db.nodes, maxKeys, leftParent).internal;
        if !Internals.IsFull(p) {
          AddToParentLeaves(db, maxKeys, leftParent, p, key, leftId, rightId, db.next);
        } else {
          assert b == SplitParent(db, maxKeys, leftParent, p, key, leftId, rightId, fuel).0.nodes;
          var _ := SplitParentLeaves(db, maxKeys, leftParent, p, key, leftId, rightId, fuel);
        }
      }
    }
  }

  lemma {:induction false} SplitParentLeaves(db: Db, maxKeys: int, pid: int, p: Internals.InternalState, key: Str,
                                             leftId: int, rightId: int, fuel: nat) returns (b: map<int, Node>)
    requires DbWf(db, maxKeys) && 0 <= pid && IsInt32(pid) && fuel > 0
    requires Load(db.nodes, maxKeys, pid) == InternalPage(p) && Internals.IsFull(p) && key != []
    requires 0 <= leftId && IsInt32(leftId) && 0 <= rightId && IsInt32(rightId)
    ensures b == SplitParent(db, maxKeys, pid, p, key, leftId, rightId, fuel).0.nodes
    ensures LeavesFrom(b, db.nodes)
    ensures 0 <= db.next && db.next + fuel <= 0x7fff_ffff ==> LeavesKept(db.nodes, b, db.next)
    decreases fuel, 2
  {
    var (kept, moved, mid) := SplitInto(p, maxKeys, key, leftId, rightId);
    b := SplitClimbLeaves(db, maxKeys, pid, kept, moved, mid, fuel);
  }

  lemma {:induction false} SplitClimbLeaves(db: Db, maxKeys: int, pid: int, kept: Internals.InternalState,
                                            moved: Internals.InternalState, mid: Str, fuel: nat)
    returns (b: map<int, Node>)
    requires DbWf(db, maxKeys) && 0 <= pid && IsInt32(pid) && fuel > 0 && mid != []
    requires NodeWf(InternalPage(kept), maxKeys) && NodeWf(InternalPage(moved), maxKeys)
    requires Load(db.nodes, maxKeys, pid).InternalPage?
    ensures b == SplitClimb(db, maxKeys, pid, kept, moved, mid, fuel).0.nodes
    ensures LeavesFrom(b, db.nodes)
    ensures 0 <= db.next && db.next + fuel <= 0x7fff_ffff ==> LeavesKept(db.nodes, b, db.next)
    decreases fuel, 1
  {
    ClimbUnfolds(db, maxKeys, pid, kept, moved, mid, fuel);
    var n, o := SplitWritesLeaves(db.nodes, maxKeys, pid, kept, moved, db.next);
    b := n;
    if o.Pass? {
      b := ClimbAfterWrites(db, maxKeys, pid, kept.parent, mid, n, fuel);
    }
  }

  /** The climb once the halves are written, one page id later. */
  lemma {:induction false} ClimbAfterWrites(db: Db, maxKeys: int, pid: int, parent: int, mid: Str,
                                            n: map<int, Node>, fuel: nat) returns (b: map<int, Node>)
    requires DbWf(db, maxKeys) && 0 <= pid && IsInt32(pid) && IsInt32(parent) && fuel > 0 && mid != []
    requires 0 <= db.next && StoreWf(n, maxKeys) && LeavesFrom(n, db.nodes) && LeavesKept(db.nodes, n, db.next)
    ensures b == InsertUp(db.(nodes := n, next := Inc32(db.next), splits := Inc32(db.splits)),
                          maxKeys, pid, parent, mid, db.next, fuel - 1).0.nodes
    ensures LeavesFrom(b, db.nodes)
    ensures db.next + fuel <= 0x7fff_ffff ==> LeavesKept(db.nodes, b, db.next)
    decreases fuel, 0
  {
    var db1 := db.(nodes := n, next := Inc32(db.next), splits := Inc32(db.splits));
    b := InsertUpLeaves(db1, maxKeys, pid, parent, mid, db.next, fuel - 1);
    ComposeLeaves(db.nodes, n, b, db.next, Inc32(db.next), fuel);
  }

  /** One step of `SplitClimb`, unfolded. */
  lemma ClimbUnfolds(db: Db, maxKeys: int, pid: int, kept: Internals.InternalState,
                     moved: Internals.InternalState, mid: Str, fuel: nat)
    requires DbWf(db, maxKeys) && 0 <= pid && IsInt32(pid) && fuel > 0 && mid != []
    requires NodeWf(InternalPage(kept), maxKeys) && NodeWf(InternalPage(moved), maxKeys)
    ensures var w := SplitWrites(db.nodes, maxKeys, pid, kept, moved, db.next);
            SplitClimb(db, maxKeys, pid, kept, moved, mid, fuel).0.nodes ==
            if w.1.Fail? then w.0
            else InsertUp(db.(nodes := w.0, next := Inc32(db.next), splits := Inc32(db.splits)),
                          maxKeys, pid, kept.parent, mid, db.next, fuel - 1).0.nodes
  {
  }

  /** The writes before the climb, then the climb one page id later. */
  lemma ComposeLeaves(a: map<int, Node>, n: map<int, Node>, c: map<int, Node>, next: int, next': int, fuel: nat)
    requires LeavesFrom(n, a) && LeavesKept(a, n, next) && LeavesFrom(c, n) && fuel > 0
    requires next < 0x7fff_ffff ==> next' == next + 1
    requires 0 <= next' && next' + (fuel - 1) <= 0x7fff_ffff ==> LeavesKept(n, c, next')
    ensures LeavesFrom(c, a)
    ensures 0 <= next && next + fuel <= 0x7fff_ffff ==> LeavesKept(a, c, next)
  {
    FromTrans(a, n, c);
    if 0 <= next && next + fuel <= 0x7fff_ffff {
      KeptTrans(a, n, c, next, next + 1);
    }
  }

  lemma SplitWritesLeaves(store: map<int, Node>, maxKeys: int, pid: int, kept: Internals.InternalState,
                          moved: Internals.InternalState, newId: int) returns (n: map<int, Node>, o: Outcome)
    requires StoreWf(store, maxKeys) && 0 <= pid && IsInt32(pid) && IsInt32(newId)
    requires NodeWf(InternalPage(kept), maxKeys) && NodeWf(InternalPage(moved), maxKeys)
    requires Load(store, maxKeys, pid).InternalPage?
    ensures n == SplitWrites(store, maxKeys, pid, kept, moved, newId).0
    ensures o == SplitWrites(store, maxKeys, pid, kept, moved, newId).1
    ensures StoreWf(n, maxKeys) && LeavesFrom(n, store) && LeavesKept(store, n, newId)
  {
    var (n2, o2) := Reparent(store, maxKeys, Internals.Children(kept), pid);
    ReparentLeaves(store, maxKeys, Internals.Children(kept), pid, newId);
    n, o := n2, o2;
    if o2.Pass? {
      var (n3, o3) := Reparent(n2, maxKeys, Internals.Children(moved), newId);
      ReparentLeaves(n2, maxKeys, Internals.Children(moved), newId, newId);
      FromTrans(store, n2, n3);
      KeptTrans(store, n2, n3, newId, newId);
      n, o := n3, o3;
      if o3.Pass? {
        var n4 := Put(n3, maxKeys, pid, InternalPage(kept));
        PutInternalLeaves(n3, maxKeys, pid, kept, newId);
        FromTrans(store, n3, n4);
        KeptTrans(store, n3, n4, newId, newId);
        n, o := n4, Fail(InvalidPageId);
        if newId >= 0 {
          PutInternalLeaves(n4, maxKeys, newId, moved, newId);
          n, o := Put(n4, maxKeys, newId, InternalPage(moved)), Pass;
          FromTrans(store, n4, n);
          KeptTrans(store, n4, n, newId, newId);
        }
      }
    }
  }

  /** The full-leaf path of `insert`, when both halves fit their pages,
      writes the two halves of the leaf and then climbs; with room below
      2^31 - 1 for the page ids the climb may allocate, the climb keeps
      every leaf below the id after the new leaf's. */
  lemma LeafSplitClimb(db: Db, maxKeys: int, id: int, s: Leaves.LeafState, key: Str,
                       value: Option<seq<Str>>, rowId: Str) returns (n2: map<int, Node>, b: map<int, Node>)
    requires DbWf(db, maxKeys) && 0 <= id && IsInt32(id) && Load(db.nodes, maxKeys, id) == LeafPage(s)
    requires Leaves.IsFull(s) && 0 <= db.next && db.next + 1 + PARENT_FUEL <= 0x7fff_ffff
    requires var (l, r) := SplitLeafInsert(s, key, value, rowId, db.next);
             LeafCodec.Fits(l) && LeafCodec.Fits(r)
    ensures var (l, r) := SplitLeafInsert(s, key, value, rowId, db.next);
            n2 == db.nodes[id := LeafPage(LeafCodec.KeptLeaf(l))][db.next := LeafPage(LeafCodec.KeptLeaf(r))]
    ensures b == LeafInsert(db, maxKeys, id, s, key, value, rowId).0.nodes
    ensures StoreWf(b, maxKeys) && LeavesKept(n2, b, db.next + 1)
  {
    SplitLeafInsertRanked(s, key, value, rowId, db.next);
    var (l, r) := SplitLeafInsert(s, key, value, rowId, db.next);
    n2 := Put(Put(db.nodes, maxKeys, id, LeafPage(l)), maxKeys, db.next, LeafPage(r));
    b := InsertUpLeaves(db.(next := Inc32(db.next)).(nodes := n2, splits := Inc32(db.splits)),
                        maxKeys, id, l.parent, r.keys[0].value, db.next, PARENT_FUEL);
  }
}

/** Page allocation in BPlusTreeImpl.java: `nextPageId` only grows, every
    page the engine writes and every pointer it stores (parent, next leaf,
    child) lies below it, and the pages `insert` adds at or above the old
    `nextPageId` are the ones it allocated. Proved about the functions of
    TreeOps, while `nextPageId` stays clear of the `int` wrap-around. */
module Allocation {
  import opened Types
  import opened NodeBase
  import opened TreeSpec
  import opened TreeOps
  import Leaves
  import LeafCodec
  import Internals
  import InternalCodec

  // ---------------------------------------------------------------------
  // Pointers of single nodes
  // ---------------------------------------------------------------------

  /** A bound that holds stays a bound when it grows. */
  lemma BelowGrows(store: map<int, Node>, a: int, b: int)
    requires StoreBelow(store, a) && a <= b
    ensures StoreBelow(store, b)
  {
    forall id | id in store
      ensures id < b && PointsBelow(store[id], b)
    {
      assert PointsBelow(store[id], a);
    }
  }

  /** Any page below the bound reads back with its pointers below it; a
      page never written reads as zeros, whose pointers are 0 and -1. */
  lemma LoadBelow(store: map<int, Node>, maxKeys: int, bound: int, id: int)
    requires StoreWf(store, maxKeys) && StoreBelow(store, bound) && 0 <= id < bound
    ensures PointsBelow(Load(store, maxKeys, id), bound)
  {
    if id !in store {
      var z := ZeroPage(maxKeys).internal;
      assert forall i :: 0 <= i < |z.children| ==> z.children[i] <= 0;
    }
  }

  /** Serializing and reading back keeps the pointers: a leaf keeps its
      parent and next leaf, an internal node its parent, its routed
      children, and -1 in the other slots. */
  lemma StoredBelow(n: Node, maxKeys: int, bound: int)
    requires Writable(n, maxKeys) && PointsBelow(n, bound) && 0 <= bound
    ensures PointsBelow(Stored(n, maxKeys), bound)
  {
    match n
    case LeafPage(s) =>
      var k := LeafCodec.KeptLeaf(s);
      assert k.parent == s.parent && k.next == s.next;
    case InternalPage(s) =>
      var k := InternalCodec.KeptInternal(s);
      forall i | 0 <= i < |k.children|
        ensures k.children[i] < bound
      {
        assert k.children[i] == InternalCodec.SlotChild(s, i);
      }
    case OtherPage(_) =>
  }

  /** Writing a node whose pointers lie below the bound, at a page below it. */
  lemma PutBelow(store: map<int, Node>, maxKeys: int, bound: int, id: int, n: Node)
    requires StoreWf(store, maxKeys) && 0 <= id && IsInt32(id) && Writable(n, maxKeys)
    requires StoreBelow(store, bound) && id < bound && PointsBelow(n, bound)
    ensures StoreBelow(Put(store, maxKeys, id, n), bound)
  {
    StoredBelow(n, maxKeys, bound);
  }

  /** `updateNodeParent` with a parent below the bound, on a page below it. */
  lemma SetParentBelow(store: map<int, Node>, maxKeys: int, bound: int, id: int, parent: int)
    requires StoreWf(store, maxKeys) && 0 <= id && IsInt32(id) && IsInt32(parent)
    requires StoreBelow(store, bound) && id < bound && parent < bound
    ensures StoreBelow(SetParent(store, maxKeys, id, parent), bound)
  {
    var n := Load(store, maxKeys, id);
    LoadBelow(store, maxKeys, bound, id);
    WithParentWf(n, maxKeys, parent);
    StoredBelow(WithParent(n, parent), maxKeys, bound);
  }

  /** `updateChildrenParent` over ids below the bound, with a parent below it,
      however far it gets. */
  lemma {:induction false} ReparentBelow(store: map<int, Node>, maxKeys: int, bound: int, ids: seq<int>, parent: int)
    requires StoreWf(store, maxKeys) && IsInt32(parent)
    requires forall i :: 0 <= i < |ids| ==> IsInt32(ids[i]) && ids[i] < bound
    requires StoreBelow(store, bound) && parent < bound
    ensures StoreBelow(Reparent(store, maxKeys, ids, parent).0, bound)
    decreases |ids|
  {
    if |ids| > 0 {
      var front := ids[..|ids| - 1];
      ReparentBelow(store, maxKeys, bound, front, parent);
      var (st, o) := Reparent(store, maxKeys, front, parent);
      var id := ids[|ids| - 1];
      if o.Pass? && 0 <= id {
        SetParentBelow(st, maxKeys, bound, id, parent);
      }
    }
  }

  /** `insertKeyChild` with both children below the bound keeps every
      child slot below it. */
  lemma InsertAtBelow(s: Internals.InternalState, key: Str, left: int, right: int, bound: int)
    requires Internals.Wf(s) && s.keyCount < |s.keys| && IsInt32(left) && IsInt32(right)
    requires PointsBelow(InternalPage(s), bound) && left < bound && right < bound
    ensures PointsBelow(InternalPage(Internals.InsertAt(s, key, left, right)), bound)
  {
  }

  /** Both halves of a full parent split around a key whose children lie
      below the bound keep their pointers below it. */
  lemma SplitIntoBelow(p: Internals.InternalState, maxKeys: int, key: Str, leftId: int, rightId: int, bound: int)
    requires NodeWf(InternalPage(p), maxKeys) && ValidMaxKeys(maxKeys) && Internals.IsFull(p) && key != []
    requires IsInt32(leftId) && IsInt32(rightId) && 0 <= bound
    requires PointsBelow(InternalPage(p), bound) && leftId < bound && rightId < bound
    ensures var (kept, moved, _) := SplitInto(p, maxKeys, key, leftId, rightId);
            PointsBelow(InternalPage(kept), bound) && PointsBelow(InternalPage(moved), bound)
  {
    InsertAtBelow(p, key, leftId, rightId, bound);
  }

  /** The full-leaf path links this leaf to `newId` and the new leaf to the
      old successor; the new leaf has no parent yet. */
  lemma SplitLeafLinks(s: Leaves.LeafState, key: Str, value: Option<seq<Str>>, rowId: Str, newId: int)
    requires Leaves.Wf(s) && Leaves.IsFull(s) && |s.keys| >= 3 && IsInt32(newId)
    ensures var (l, r) := SplitLeafInsert(s, key, value, rowId, newId);
            l.parent == s.parent && l.next == newId && r.parent == -1 && r.next == s.next
  {
  }

  // ---------------------------------------------------------------------
  // insertToParent
  // ---------------------------------------------------------------------

  /** A new root takes the next page id, and its two children and it are
      below the advanced counter. */
  lemma NewRootAllocated(db: Db, maxKeys: int, leftId: int, key: Str, rightId: int)
    requires DbWf(db, maxKeys) && key != []
    requires 0 <= leftId && IsInt32(leftId) && 0 <= rightId && IsInt32(rightId)
    requires Allocated(db) && leftId < db.next && rightId < db.next && db.next < 0x7fff_ffff
    ensures var r := NewRoot(db, maxKeys, leftId, key, rightId).0;
            Allocated(r) && r.next == db.next + 1
  {
    var id, bound := db.next, db.next + 1;
    BelowGrows(db.nodes, db.next, bound);
    var empty := Internals.Fresh(maxKeys);
    InsertAtNonEmpty(empty, key, leftId, rightId);
    InsertAtBelow(empty, key, leftId, rightId, bound);
    var root := Internals.InsertKeyChild(empty, key, leftId, rightId).value;
    var n1 := Put(db.nodes, maxKeys, id, InternalPage(root));
    PutBelow(db.nodes, maxKeys, bound, id, InternalPage(root));
    SetParentBelow(n1, maxKeys, bound, leftId, id);
    SetParentBelow(SetParent(n1, maxKeys, leftId, id), maxKeys, bound, rightId, id);
  }

  /** A parent with room takes the key in place; the counter stays. */
  lemma AddToParentAllocated(db: Db, maxKeys: int, pid: int, p: Internals.InternalState, key: Str,
                             leftId: int, rightId: int)
    requires DbWf(db, maxKeys) && 0 <= pid && IsInt32(pid)
    requires Load(db.nodes, maxKeys, pid) == InternalPage(p) && !Internals.IsFull(p) && key != []
    requires 0 <= leftId && IsInt32(leftId) && 0 <= rightId && IsInt32(rightId)
    requires Allocated(db) && pid < db.next && leftId < db.next && rightId < db.next
    ensures var r := AddToParent(db, maxKeys, pid, p, key, leftId, rightId);
            Allocated(r) && r.next == db.next
  {
    LoadBelow(db.nodes, maxKeys, db.next, pid);
    InsertAtNonEmpty(p, key, leftId, rightId);
    InsertAtBelow(p, key, leftId, rightId, db.next);
    var p' := Internals.InsertKeyChild(p, key, leftId, rightId).value;
    PutBelow(db.nodes, maxKeys, db.next, pid, InternalPage(p'));
    SetParentBelow(Put(db.nodes, maxKeys, pid, InternalPage(p')), maxKeys, db.next, rightId, pid);
  }

  /** The writes of a parent split, with both halves' pointers and the
      new page below the bound. */
  lemma SplitWritesBelow(store: map<int, Node>, maxKeys: int, pid: int, kept: Internals.InternalState,
                         moved: Internals.InternalState, newId: int, bound: int)
    requires StoreWf(store, maxKeys) && 0 <= pid && IsInt32(pid) && IsInt32(newId)
    requires NodeWf(InternalPage(kept), maxKeys) && NodeWf(InternalPage(moved), maxKeys)
    requires StoreBelow(store, bound) && pid < bound && newId < bound
    requires PointsBelow(InternalPage(kept), bound) && PointsBelow(InternalPage(moved), bound)
    ensures StoreBelow(SplitWrites(store, maxKeys, pid, kept, moved, newId).0, bound)
  {
    var (n2, o2) := Reparent(store, maxKeys, Internals.Children(kept), pid);
    ReparentBelow(store, maxKeys, bound, Internals.Children(kept), pid);
    if o2.Pass? {
      var (n3, o3) := Reparent(n2, maxKeys, Internals.Children(moved), newId);
      ReparentBelow(n2, maxKeys, bound, Internals.Children(moved), newId);
      if o3.Pass? {
        PutBelow(n3, maxKeys, bound, pid, InternalPage(kept));
        if 0 <= newId {
          PutBelow(Put(n3, maxKeys, pid, InternalPage(kept)), maxKeys, bound, newId, InternalPage(moved));
        }
      }
    }
  }

  /** `insertToParent` climbing at most `fuel` levels allocates at most
      `fuel` pages, and every page and pointer it writes lies below the
      advanced counter. */
  lemma {:induction false} InsertUpAllocated(db: Db, maxKeys: int, leftId: int, leftParent: int, key: Str,
                                             rightId: int, fuel: nat)
    requires DbWf(db, maxKeys) && IsInt32(leftParent) && key != []
    requires 0 <= leftId && IsInt32(leftId) && 0 <= rightId && IsInt32(rightId)
    requires Allocated(db) && leftId < db.next && rightId < db.next && leftParent < db.next
    requires db.next + fuel <= 0x7fff_ffff
    ensures var r := InsertUp(db, maxKeys, leftId, leftParent, key, rightId, fuel).0;
            Allocated(r) && db.next <= r.next <= db.next + fuel
    decreases fuel, 3
  {
    if fuel == 0 || leftParent < -1 {
    } else if leftParent == -1 {
      NewRootAllocated(db, maxKeys, leftId, key, rightId);
    } else {
      match Load(db.nodes, maxKeys, leftParent)
      case InternalPage(p) =>
        if !Internals.IsFull(p) {
          AddToParentAllocated(db, maxKeys, leftParent, p, key, leftId, rightId);
        } else {
          SplitParentAllocated(db, maxKeys, leftParent, p, key, leftId, rightId, fuel);
        }
      case _ =>
    }
  }

  /** The full-parent branch: the split halves keep their pointers below
      the counter, and the climb allocates the rest. */
  lemma {:induction false} SplitParentAllocated(db: Db, maxKeys: int, pid: int, p: Internals.InternalState,
                                                key: Str, leftId: int, rightId: int, fuel: nat)
    requires DbWf(db, maxKeys) && 0 <= pid && IsInt32(pid) && fuel > 0
    requires Load(db.nodes, maxKeys, pid) == InternalPage(p) && Internals.IsFull(p) && key != []
    requires 0 <= leftId && IsInt32(leftId) && 0 <= rightId && IsInt32(rightId)
    requires Allocated(db) && pid < db.next && leftId < db.next && rightId < db.next
    requires db.next + fuel <= 0x7fff_ffff
    ensures var r := SplitParent(db, maxKeys, pid, p, key, leftId, rightId, fuel).0;
            Allocated(r) && db.next <= r.next <= db.next + fuel
    decreases fuel, 2
  {
    LoadBelow(db.nodes, maxKeys, db.next, pid);
    SplitIntoBelow(p, maxKeys, key, leftId, rightId, db.next);
    var (kept, moved, mid) := SplitInto(p, maxKeys, key, leftId, rightId);
    BelowGrows(db.nodes, db.next, db.next + 1);
    SplitWritesBelow(db.nodes, maxKeys, pid, kept, moved, db.next, db.next + 1);
    SplitClimbAllocated(db, maxKeys, pid, kept, moved, mid, fuel);
  }

  /** The rest of that branch: the upper half takes the next page id, and
      the middle key climbs with one level less to go. */
  lemma {:induction false} SplitClimbAllocated(db: Db, maxKeys: int, pid: int, kept: Internals.InternalState,
                                               moved: Internals.InternalState, mid: Str, fuel: nat)
    requires DbWf(db, maxKeys) && 0 <= pid && IsInt32(pid) && fuel > 0 && mid != []
    requires NodeWf(InternalPage(kept), maxKeys) && NodeWf(InternalPage(moved), maxKeys)
    requires Allocated(db) && pid < db.next
    requires PointsBelow(InternalPage(kept), db.next) && PointsBelow(InternalPage(moved), db.next)
    requires db.next + fuel <= 0x7fff_ffff
    requires StoreBelow(SplitWrites(db.nodes, maxKeys, pid, kept, moved, db.next).0, db.next + 1)
    ensures var r := SplitClimb(db, maxKeys, pid, kept, moved, mid, fuel).0;
            Allocated(r) && db.next <= r.next <= db.next + fuel
    decreases fuel, 1
  {
    var w := SplitWrites(db.nodes, maxKeys, pid, kept, moved, db.next);
    if w.1.Pass? {
      var db2 := db.(nodes := w.0, next := db.next + 1, splits := Inc32(db.splits));
      InsertUpAllocated(db2, maxKeys, pid, kept.parent, mid, db.next, fuel - 1);
      ClimbResult(db, maxKeys, pid, kept, moved, mid, fuel);
    }
  }

  /** The climb after both halves are written: what it leaves is what
      `insertToParent` leaves from the written state. */
  lemma ClimbResult(db: Db, maxKeys: int, pid: int, kept: Internals.InternalState,
                    moved: Internals.InternalState, mid: Str, fuel: nat)
    requires DbWf(db, maxKeys) && 0 <= pid && IsInt32(pid) && fuel > 0 && mid != []
    requires NodeWf(InternalPage(kept), maxKeys) && NodeWf(InternalPage(moved), maxKeys)
    requires 0 <= db.next < 0x7fff_ffff
    requires var w := SplitWrites(db.nodes, maxKeys, pid, kept, moved, db.next);
             var db2 := db.(nodes := w.0, next := db.next + 1, splits := Inc32(db.splits));
             var r := InsertUp(db2, maxKeys, pid, kept.parent, mid, db.next, fuel - 1).0;
             w.1.Pass? && Allocated(r) && db.next + 1 <= r.next <= db.next + fuel
    ensures var r := SplitClimb(db, maxKeys, pid, kept, moved, mid, fuel).0;
            Allocated(r) && db.next <= r.next <= db.next + fuel
  {
  }

  // ---------------------------------------------------------------------
  // insert and delete
  // ---------------------------------------------------------------------

  /** The leaf step of `insert`: a leaf with room is rewritten in place; a
      full one gives its upper half the next page id, and the climb
      allocates at most `PARENT_FUEL` more. */
  lemma LeafInsertAllocated(db: Db, maxKeys: int, id: int, s: Leaves.LeafState, key: Str,
                            value: Option<seq<Str>>, rowId: Str)
    requires DbWf(db, maxKeys) && 0 <= id && IsInt32(id) && Load(db.nodes, maxKeys, id) == LeafPage(s)
    requires Allocated(db) && db.next + 1 + PARENT_FUEL <= 0x7fff_ffff
    ensures var r := LeafInsert(db, maxKeys, id, s, key, value, rowId).0;
            Allocated(r) && db.next <= r.next <= db.next + 1 + PARENT_FUEL
  {
    assert id in db.nodes && db.nodes[id] == LeafPage(s);
    if !Leaves.IsFull(s) {
      Leaves.InsertRanked(s, key, value, rowId);
      PutBelow(db.nodes, maxKeys, db.next, id, LeafPage(Leaves.Insert(s, key, value, rowId).value));
    } else {
      LeafSplitAllocated(db, maxKeys, id, s, key, value, rowId);
    }
  }

  /** The full-leaf branch: the full leaf keeps its page and points at the
      new leaf, which takes the next page id and the old successor. */
  lemma LeafSplitAllocated(db: Db, maxKeys: int, id: int, s: Leaves.LeafState, key: Str,
                           value: Option<seq<Str>>, rowId: Str)
    requires DbWf(db, maxKeys) && 0 <= id && IsInt32(id) && Load(db.nodes, maxKeys, id) == LeafPage(s)
    requires Leaves.IsFull(s) && PointsBelow(LeafPage(s), db.next) && id < db.next
    requires Allocated(db) && db.next + 1 + PARENT_FUEL <= 0x7fff_ffff
    ensures var r := LeafInsert(db, maxKeys, id, s, key, value, rowId).0;
            Allocated(r) && db.next <= r.next <= db.next + 1 + PARENT_FUEL
  {
    var newId, bound := db.next, db.next + 1;
    var l, r := LeafSplitSteps(db, maxKeys, id, s, key, value, rowId);
    SplitLeafLinks(s, key, value, rowId, newId);
    BelowGrows(db.nodes, db.next, bound);
    if LeafCodec.Fits(l) {
      var n1 := Put(db.nodes, maxKeys, id, LeafPage(l));
      PutBelow(db.nodes, maxKeys, bound, id, LeafPage(l));
      if LeafCodec.Fits(r) {
        var n2 := Put(n1, maxKeys, newId, LeafPage(r));
        PutBelow(n1, maxKeys, bound, newId, LeafPage(r));
        LeafClimbAllocated(db, maxKeys, id, l, r, n2);
      }
    }
  }

  /** The full-leaf branch of `LeafInsert` step by step: the two halves,
      then the state each way out of it leaves. */
  lemma LeafSplitSteps(db: Db, maxKeys: int, id: int, s: Leaves.LeafState, key: Str,
                       value: Option<seq<Str>>, rowId: Str) returns (l: Leaves.LeafState, r: Leaves.LeafState)
    requires DbWf(db, maxKeys) && 0 <= id && IsInt32(id) && Load(db.nodes, maxKeys, id) == LeafPage(s)
    requires Leaves.IsFull(s) && 0 <= db.next < 0x7fff_ffff
    ensures Leaves.Wf(s) && |s.keys| >= 3 && (l, r) == SplitLeafInsert(s, key, value, rowId, db.next)
    ensures Leaves.Ranked(l) && Leaves.Ranked(r) && r.keys[0].value != []
    ensures var res := LeafInsert(db, maxKeys, id, s, key, value, rowId).0;
            var n1 := Put(db.nodes, maxKeys, id, LeafPage(l));
            && (!LeafCodec.Fits(l) ==> res == db.(next := db.next + 1))
            && (LeafCodec.Fits(l) && !LeafCodec.Fits(r) ==> res == db.(next := db.next + 1, nodes := n1))
            && (LeafCodec.Fits(l) && LeafCodec.Fits(r) ==>
                  res == InsertUp(db.(next := Inc32(db.next)).(nodes := Put(n1, maxKeys, db.next, LeafPage(r)),
                                                                 splits := Inc32(db.splits)),
                                  maxKeys, id, l.parent, r.keys[0].value, db.next, PARENT_FUEL).0)
  {
    SplitLeafInsertRanked(s, key, value, rowId, db.next);
    l, r := SplitLeafInsert(s, key, value, rowId, db.next).0, SplitLeafInsert(s, key, value, rowId, db.next).1;
  }

  /** The climb after both leaf halves are written at `id` and at the next
      page id: it keeps every pointer below the counter. */
  lemma LeafClimbAllocated(db: Db, maxKeys: int, id: int, l: Leaves.LeafState, r: Leaves.LeafState,
                           n2: map<int, Node>)
    requires DbWf(db, maxKeys) && 0 <= id && IsInt32(id) && id < db.next && StoreWf(n2, maxKeys)
    requires 0 <= db.next && db.next + 1 + PARENT_FUEL <= 0x7fff_ffff
    requires IsInt32(l.parent) && l.parent < db.next && |r.keys| > 0 && r.keys[0].Some? && r.keys[0].value != []
    requires Allocated(db) && StoreBelow(n2, db.next + 1)
    ensures var r' := InsertUp(db.(next := Inc32(db.next)).(nodes := n2, splits := Inc32(db.splits)),
                               maxKeys, id, l.parent, r.keys[0].value, db.next, PARENT_FUEL).0;
            Allocated(r') && db.next <= r'.next <= db.next + 1 + PARENT_FUEL
  {
    var db2 := db.(next := db.next + 1, nodes := n2, splits := Inc32(db.splits));
    assert db.(next := Inc32(db.next)).(nodes := n2, splits := Inc32(db.splits)) == db2;
    InsertUpAllocated(db2, maxKeys, id, l.parent, r.keys[0].value, db.next, PARENT_FUEL);
  }

  /** `insert`, whether it completes or throws part way, keeps every page
      and pointer below `nextPageId` and advances it by at most one page
      per level it climbs. */
  lemma InsertOpAllocated(db: Db, maxKeys: int, key: Str, value: Option<seq<Str>>, rowId: Str)
    requires DbWf(db, maxKeys) && Allocated(db) && db.next + 1 + PARENT_FUEL <= 0x7fff_ffff
    ensures var r := InsertOp(db, maxKeys, key, value, rowId).0;
            && Allocated(r)
            && db.next <= r.next <= db.next + 1 + PARENT_FUEL
  {
    if db.root == -1 {
      var id := db.next;
      if 0 <= id {
        Leaves.OrderedIsRanked(Leaves.Fresh(maxKeys));
        Leaves.InsertRanked(Leaves.Fresh(maxKeys), key, value, rowId);
        var leaf := Leaves.Insert(Leaves.Fresh(maxKeys), key, value, rowId).value;
        BelowGrows(db.nodes, db.next, db.next + 1);
        PutBelow(db.nodes, maxKeys, db.next + 1, id, LeafPage(leaf));
      } else {
        BelowGrows(db.nodes, db.next, db.next + 1);
      }
    } else {
      match Descend(db.nodes, maxKeys, db.root, key, 0, {})
      case AtLeaf(l, s) => LeafInsertAllocated(db, maxKeys, l, s, key, value, rowId);
      case _ =>
    }
  }

  /** `delete` rewrites at most the leaf it reaches, in place: the counter
      and the root stay, and every pointer stays below the counter. */
  lemma DeleteOpAllocated(db: Db, maxKeys: int, key: Str)
    requires DbWf(db, maxKeys) && Allocated(db)
    ensures var r := DeleteOp(db, maxKeys, key).0;
            Allocated(r) && r.next == db.next && r.root == db.root
  {
    if db.root != -1 {
      match Descend(db.nodes, maxKeys, db.root, key, 0, {})
      case AtLeaf(l, s) =>
        Leaves.RemoveRanked(s, key);
        var (s', removed) := Leaves.Remove(s, key);
        if removed {
          PutBelow(db.nodes, maxKeys, db.next, l, LeafPage(s'));
        }
      case _ =>
    }
  }
}

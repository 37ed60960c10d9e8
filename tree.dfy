/** `BPlusTreeImpl`: the tree engine as a class whose fields the operations
    update in place. The buffer pool and the node codecs are abstracted
    into `nodes`, every page id written so far with its page as it reads
    back after the codec (keys, row ids and values cut to their slots, an
    empty value array read as null; see TreeSpec.Stored); an id never
    written reads as the zero page (TreeSpec.Load), and the
    metadata block is the one last written. Every method is proved to leave
    the fields, and to answer, what the corresponding function of TreeOps
    or TreeSpec says; what those functions mean is proved in TreeOps,
    TreeSpec and TreeLaws. An exception is an `Outcome` or `Result` error. */
module Tree {
  import opened Types
  import opened TreeSpec
  import opened TreeOps
  import Leaves
  import LeafCodec
  import Internals
  import Disk

  class BPlusTree {
    /** The pages as the engine decodes them, by page id. */
    var nodes: map<int, Node>
    var rootPageId: int
    var nextPageId: int
    var splitCount: int
    var mergeCount: int
    /** The metadata block as last written by `saveMetadata`. */
    var metadata: seq<Byte>
    /** `maxKeysPerNode`. */
    const maxKeys: int

    /** The fields as a TreeOps state. */
    function Model(): Db
      reads this
    {
      Db(nodes, rootPageId, nextPageId, splitCount, mergeCount, metadata)
    }

    predicate Valid()
      reads this
    {
      DbWf(Model(), maxKeys)
    }

    /** `new BPlusTreeImpl()` and the start of `create(filename, pageSize)`:
        the fields at their initial values, `maxKeysPerNode` computed from
        the page size, and the file's pages and metadata block. */
    constructor (pageSize: int, stored: map<int, Node>, meta: seq<Byte>)
      requires StoreWf(stored, CalculateMaxKeys(pageSize)) && |meta| == Disk.METADATA_SIZE
      ensures Valid() && maxKeys == CalculateMaxKeys(pageSize)
      ensures Model() == Db(stored, -1, 0, 0, 0, meta)
    {
      maxKeys := CalculateMaxKeys(pageSize);
      nodes := stored;
      rootPageId, nextPageId, splitCount, mergeCount := -1, 0, 0, 0;
      metadata := meta;
    }

    /** The rest of `create`: with the magic number the four fields are read
        from the metadata block and a tree with a root page is validated;
        otherwise the tree starts empty and saves its metadata. */
    method Create() returns (c: Check)
      requires Valid()
      modifies this
      ensures Valid() && (Model(), c) == CreateOp(maxKeys, old(nodes), old(metadata))
    {
      if MetaInt(metadata, 0) == MAGIC {
        rootPageId := MetaInt(metadata, 4);
        nextPageId := MetaInt(metadata, 8);
        splitCount := MetaInt(metadata, 12);
        mergeCount := MetaInt(metadata, 16);
        if rootPageId >= 0 {
          c := ValidateTreeStructure();
        } else {
          c := Check(Pass, []);
        }
      } else {
        rootPageId, nextPageId, splitCount, mergeCount := -1, 0, 0, 0;
        SaveMetadata();
        c := Check(Pass, []);
      }
    }

    /** `close`: the metadata is saved. */
    method Close()
      requires Valid()
      modifies this`metadata
      ensures Valid() && Model() == Saved(old(Model()))
    {
      SaveMetadata();
    }

    /** `saveMetadata`. */
    method SaveMetadata()
      requires Valid()
      modifies this`metadata
      ensures Valid() && Model() == Saved(old(Model()))
    {
      metadata := MetadataBytes(rootPageId, nextPageId, splitCount, mergeCount);
    }

    /** `allocateNewPage`: `nextPageId++`, wrapping as a Java `int`. */
    method AllocateNewPage() returns (id: int)
      requires Valid()
      modifies this`nextPageId
      ensures Valid() && id == old(nextPageId) && nextPageId == Inc32(old(nextPageId))
    {
      id := nextPageId;
      nextPageId := Inc32(nextPageId);
    }

    // -------------------------------------------------------------------
    // insert
    // -------------------------------------------------------------------

    /** `insert(key, value, rowId)`. */
    method Insert(key: Str, value: Option<seq<Str>>, rowId: Str) returns (o: Outcome)
      requires Valid()
      modifies this
      ensures Valid() && (Model(), o) == InsertOp(old(Model()), maxKeys, key, value, rowId)
    {
      if rootPageId == -1 {
        var id := AllocateNewPage();
        rootPageId := id;
        Leaves.OrderedIsRanked(Leaves.Fresh(maxKeys));
        Leaves.InsertRanked(Leaves.Fresh(maxKeys), key, value, rowId);
        var root := Leaves.Insert(Leaves.Fresh(maxKeys), key, value, rowId).value;
        if id < 0 {
          return Fail(InvalidPageId);
        }
        if !LeafCodec.Fits(root) {
          return Fail(PageSpaceExhausted);
        }
        nodes := Put(nodes, maxKeys, id, LeafPage(root));
        SaveMetadata();
        return Pass;
      }
      o := InsertHelper(rootPageId, key, value, rowId, 0, {});
    }

    /** `insertHelper`: the guarded descent to the leaf for `key`, with
        `visited` the pages on the path above `id`. */
    method InsertHelper(id: int, key: Str, value: Option<seq<Str>>, rowId: Str, depth: nat, visited: set<int>)
      returns (o: Outcome)
      requires Valid()
      modifies this
      ensures Valid() && (Model(), o) == InsertFrom(old(Model()), maxKeys, id, key, value, rowId, depth, visited)
      decreases MAX_DEPTH + 1 - depth
    {
      if depth > MAX_DEPTH {
        return Fail(DepthExceeded);
      }
      if id < 0 {
        return Fail(InvalidPageId);
      }
      if id in visited {
        return Fail(CycleDetected);
      }
      match Load(nodes, maxKeys, id)
      case LeafPage(s) =>
        o := InsertIntoLeaf(id, s, key, value, rowId);
      case InternalPage(s) =>
        var child := Internals.FindChild(s, key);
        if child < 0 {
          return Fail(InvalidChild);
        }
        if child == id {
          return Fail(SelfReference);
        }
        InsertFromUnfolds(Model(), maxKeys, id, key, value, rowId, depth, visited, s);
        o := InsertHelper(child, key, value, rowId, depth + 1, visited + {id});
      case OtherPage(_) =>
        o := Fail(UnknownNodeType);
    }

    /** The leaf branch of `insertHelper`: a leaf with room takes the entry;
        a full leaf splits, the new leaf gets a fresh page and sits between
        the leaf and its old successor, the entry goes to the half its key
        belongs to, both pages are written, the split is counted and the new
        leaf's first key climbs to the parent. A leaf that `serialize`
        cannot fit in its page stops the insert before its page is written. */
    method InsertIntoLeaf(id: int, s: Leaves.LeafState, key: Str, value: Option<seq<Str>>, rowId: Str)
      returns (o: Outcome)
      requires Valid() && 0 <= id && IsInt32(id) && Load(nodes, maxKeys, id) == LeafPage(s)
      modifies this
      ensures Valid() && (Model(), o) == LeafInsert(old(Model()), maxKeys, id, s, key, value, rowId)
    {
      if !Leaves.IsFull(s) {
        Leaves.InsertRanked(s, key, value, rowId);
        var s' := Leaves.Insert(s, key, value, rowId).value;
        if !LeafCodec.Fits(s') {
          return Fail(PageSpaceExhausted);
        }
        nodes := Put(nodes, maxKeys, id, LeafPage(s'));
        return Pass;
      }
      o := SplitLeafAndClimb(id, s, key, value, rowId);
    }

    /** The full-leaf branch of `insertHelper`. */
    method SplitLeafAndClimb(id: int, s: Leaves.LeafState, key: Str, value: Option<seq<Str>>, rowId: Str)
      returns (o: Outcome)
      requires Valid() && 0 <= id && IsInt32(id) && Load(nodes, maxKeys, id) == LeafPage(s) && Leaves.IsFull(s)
      modifies this
      ensures Valid() && (Model(), o) == LeafInsert(old(Model()), maxKeys, id, s, key, value, rowId)
    {
      var newId := AllocateNewPage();
      SplitLeafInsertRanked(s, key, value, rowId, newId);
      var left, right := SplitLeaf(s, key, value, rowId, newId);
      if !LeafCodec.Fits(left) {
        return Fail(PageSpaceExhausted);
      }
      nodes := Put(nodes, maxKeys, id, LeafPage(left));
      if newId < 0 {
        return Fail(InvalidPageId);
      }
      if !LeafCodec.Fits(right) {
        return Fail(PageSpaceExhausted);
      }
      nodes := Put(nodes, maxKeys, newId, LeafPage(right));
      splitCount := Inc32(splitCount);
      o := InsertToParent(id, left.parent, right.keys[0].value, newId, PARENT_FUEL);
    }

    /** The in-memory steps of the full-leaf path: `split`, the leaf links
        re-pointed through `newId`, and the entry inserted into the half
        whose range holds `key`. */
    static method SplitLeaf(s: Leaves.LeafState, key: Str, value: Option<seq<Str>>, rowId: Str, newId: int)
      returns (left: Leaves.LeafState, right: Leaves.LeafState)
      requires Leaves.Ranked(s) && Leaves.IsFull(s) && |s.keys| >= 3 && IsInt32(newId)
      ensures (left, right) == SplitLeafInsert(s, key, value, rowId, newId)
    {
      left, right := Leaves.Split(s).value.0, Leaves.Split(s).value.1;
      right := right.(next := s.next);
      left := left.(next := newId);
      if Less(key, right.keys[0].value) {
        left := Leaves.Insert(left, key, value, rowId).value;
      } else {
        right := Leaves.Insert(right, key, value, rowId).value;
      }
    }

    /** `insertToParent(left, key, right)` for the pages `leftId` and
        `rightId`, `leftParent` being the left node's parent pointer. */
    method InsertToParent(leftId: int, leftParent: int, key: Str, rightId: int, fuel: nat) returns (o: Outcome)
      requires Valid() && IsInt32(leftParent) && key != []
      requires 0 <= leftId && IsInt32(leftId) && 0 <= rightId && IsInt32(rightId)
      modifies this
      ensures Valid() && (Model(), o) == InsertUp(old(Model()), maxKeys, leftId, leftParent, key, rightId, fuel)
      decreases fuel, 2
    {
      if fuel == 0 {
        return Fail(DepthExceeded);
      }
      if leftParent == -1 {
        o := InsertNewRoot(leftId, key, rightId);
        return;
      }
      if leftParent < 0 {
        return Fail(InvalidPageId);
      }
      match Load(nodes, maxKeys, leftParent)
      case InternalPage(p) =>
        if !Internals.IsFull(p) {
          InsertIntoParent(leftParent, p, key, leftId, rightId);
          o := Pass;
        } else {
          o := SplitParentAndClimb(leftParent, p, key, leftId, rightId, fuel);
        }
      case _ =>
        o := Fail(UnknownNodeType);
    }

    /** The root branch of `insertToParent`. */
    method InsertNewRoot(leftId: int, key: Str, rightId: int) returns (o: Outcome)
      requires Valid() && key != [] && 0 <= leftId && IsInt32(leftId) && 0 <= rightId && IsInt32(rightId)
      modifies this
      ensures Valid() && (Model(), o) == NewRoot(old(Model()), maxKeys, leftId, key, rightId)
    {
      var id := AllocateNewPage();
      if leftId == id || rightId == id {
        return Fail(RootIdConflict);
      }
      var empty := Internals.Fresh(maxKeys);
      InsertAtNonEmpty(empty, key, leftId, rightId);
      var root := Internals.InsertKeyChild(empty, key, leftId, rightId).value;
      if id < 0 {
        return Fail(InvalidPageId);
      }
      nodes := Put(nodes, maxKeys, id, InternalPage(root));
      UpdateNodeParent(leftId, id);
      UpdateNodeParent(rightId, id);
      rootPageId := id;
      SaveMetadata();
      o := Pass;
    }

    /** The branch of `insertToParent` for a parent with room. */
    method InsertIntoParent(pid: int, p: Internals.InternalState, key: Str, leftId: int, rightId: int)
      requires Valid() && 0 <= pid && IsInt32(pid)
      requires Load(nodes, maxKeys, pid) == InternalPage(p) && !Internals.IsFull(p) && key != []
      requires 0 <= leftId && IsInt32(leftId) && 0 <= rightId && IsInt32(rightId)
      modifies this`nodes
      ensures Valid() && Model() == AddToParent(old(Model()), maxKeys, pid, p, key, leftId, rightId)
    {
      InsertAtNonEmpty(p, key, leftId, rightId);
      var p' := Internals.InsertKeyChild(p, key, leftId, rightId).value;
      nodes := Put(nodes, maxKeys, pid, InternalPage(p'));
      UpdateNodeParent(rightId, pid);
    }

    /** The branch of `insertToParent` for a full parent: the key goes in
        one slot beyond capacity, the parent splits, the upper half gets a
        fresh page, the children of both halves are re-pointed, both halves
        are written, the split is counted and the middle key climbs. */
    method SplitParentAndClimb(pid: int, p: Internals.InternalState, key: Str, leftId: int, rightId: int,
                               fuel: nat) returns (o: Outcome)
      requires Valid() && 0 <= pid && IsInt32(pid) && fuel > 0
      requires Load(nodes, maxKeys, pid) == InternalPage(p) && Internals.IsFull(p) && key != []
      requires 0 <= leftId && IsInt32(leftId) && 0 <= rightId && IsInt32(rightId)
      modifies this
      ensures Valid() && (Model(), o) == SplitParent(old(Model()), maxKeys, pid, p, key, leftId, rightId, fuel)
      decreases fuel, 1
    {
      var (kept, moved, mid) := SplitInto(p, maxKeys, key, leftId, rightId);
      o := SplitAndClimb(pid, kept, moved, mid, fuel);
    }

    /** The full-parent branch once the halves are known: a page for the
        upper half, the writes, the split counted, the middle key climbing. */
    method SplitAndClimb(pid: int, kept: Internals.InternalState, moved: Internals.InternalState, mid: Str,
                         fuel: nat) returns (o: Outcome)
      requires Valid() && 0 <= pid && IsInt32(pid) && fuel > 0 && mid != []
      requires NodeWf(InternalPage(kept), maxKeys) && NodeWf(InternalPage(moved), maxKeys)
      modifies this
      ensures Valid() && (Model(), o) == SplitClimb(old(Model()), maxKeys, pid, kept, moved, mid, fuel)
      decreases fuel, 0
    {
      ghost var db := Model();
      var newId := AllocateNewPage();
      assert newId == db.next;
      o := WriteHalves(pid, kept, moved, newId);
      ghost var db1 := db.(nodes := nodes, next := Inc32(db.next));
      assert Model() == db1;
      if o.Fail? {
        return;
      }
      splitCount := Inc32(splitCount);
      ghost var db2 := db1.(splits := Inc32(db.splits));
      assert Model() == db2;
      o := InsertToParent(pid, kept.parent, mid, newId, fuel - 1);
    }

    /** The writes of the full-parent branch: the children of each half
        re-pointed at its page, then both halves written. */
    method WriteHalves(pid: int, kept: Internals.InternalState, moved: Internals.InternalState, newId: int)
      returns (o: Outcome)
      requires Valid() && 0 <= pid && IsInt32(pid) && IsInt32(newId)
      requires NodeWf(InternalPage(kept), maxKeys) && NodeWf(InternalPage(moved), maxKeys)
      modifies this`nodes
      ensures Valid() && (nodes, o) == SplitWrites(old(nodes), maxKeys, pid, kept, moved, newId)
    {
      o := UpdateChildrenParent(Internals.Children(kept), pid);
      if o.Fail? {
        return;
      }
      o := UpdateChildrenParent(Internals.Children(moved), newId);
      if o.Fail? {
        return;
      }
      nodes := Put(nodes, maxKeys, pid, InternalPage(kept));
      if newId < 0 {
        return Fail(InvalidPageId);
      }
      nodes := Put(nodes, maxKeys, newId, InternalPage(moved));
    }

    /** `updateNodeParent`: the page `id` rewritten with `parent` as its
        parent. */
    method UpdateNodeParent(id: int, parent: int)
      requires Valid() && 0 <= id && IsInt32(id) && IsInt32(parent)
      modifies this`nodes
      ensures Valid() && nodes == SetParent(old(nodes), maxKeys, id, parent)
    {
      nodes := SetParent(nodes, maxKeys, id, parent);
    }

    /** `updateChildrenParent`: every child id other than -1, in order, gets
        `parent` as its parent; a negative one stops the loop. */
    method UpdateChildrenParent(kids: seq<int>, parent: int) returns (o: Outcome)
      requires Valid() && IsInt32(parent) && forall i :: 0 <= i < |kids| ==> IsInt32(kids[i])
      modifies this`nodes
      ensures Valid() && (nodes, o) == Reparent(old(nodes), maxKeys, kids, parent)
    {
      var i := 0;
      while i < |kids|
        invariant 0 <= i <= |kids| && Valid()
        invariant (nodes, Pass) == Reparent(old(nodes), maxKeys, kids[..i], parent)
      {
        assert kids[..i + 1][..i] == kids[..i];
        var child := kids[i];
        if child != -1 {
          if child < 0 {
            ReparentStops(old(nodes), maxKeys, kids, parent, i + 1);
            return Fail(InvalidPageId);
          }
          UpdateNodeParent(child, parent);
        }
        i := i + 1;
      }
      assert kids[..i] == kids;
      o := Pass;
    }

    // -------------------------------------------------------------------
    // get and delete
    // -------------------------------------------------------------------

    /** `get(key)`. */
    method Get(key: Str) returns (r: Result<seq<Option<seq<Str>>>>)
      requires Valid()
      ensures r == GetOp(Model(), maxKeys, key)
    {
      if rootPageId == -1 {
        return Ok([]);
      }
      r := SearchHelper(rootPageId, key, 0, {});
    }

    /** `searchHelper`. */
    method SearchHelper(id: int, key: Str, depth: nat, visited: set<int>) returns (r: Result<seq<Option<seq<Str>>>>)
      requires Valid()
      ensures r == SearchFrom(Model(), maxKeys, id, key, depth, visited)
      decreases MAX_DEPTH + 1 - depth
    {
      if depth > MAX_DEPTH {
        return Err(DepthExceeded);
      }
      if id < 0 {
        return Ok([]);
      }
      if id in visited {
        return Err(CycleDetected);
      }
      match Load(nodes, maxKeys, id)
      case LeafPage(s) =>
        r := Ok(Leaves.Search(s, key));
      case InternalPage(s) =>
        var child := Internals.FindChild(s, key);
        if child < 0 {
          return Err(InvalidChild);
        }
        if child == id {
          return Err(SelfReference);
        }
        r := SearchHelper(child, key, depth + 1, visited + {id});
      case OtherPage(_) =>
        r := Err(UnknownNodeType);
    }

    /** `delete(key)`. */
    method Delete(key: Str) returns (o: Outcome)
      requires Valid()
      modifies this`nodes
      ensures Valid() && (Model(), o) == DeleteOp(old(Model()), maxKeys, key)
    {
      if rootPageId == -1 {
        return Pass;
      }
      var d := DeleteHelper(rootPageId, key, 0, {});
      o := if d.Err? then Fail(d.error) else Pass;
    }

    /** `deleteHelper`: whether the key was removed from its leaf. */
    method DeleteHelper(id: int, key: Str, depth: nat, visited: set<int>) returns (r: Result<bool>)
      requires Valid()
      modifies this`nodes
      ensures Valid() && (Model(), r) == DeleteFrom(old(Model()), maxKeys, id, key, depth, visited)
      decreases MAX_DEPTH + 1 - depth
    {
      if depth > MAX_DEPTH {
        return Err(DepthExceeded);
      }
      if id < 0 {
        return Ok(false);
      }
      if id in visited {
        return Err(CycleDetected);
      }
      match Load(nodes, maxKeys, id)
      case LeafPage(s) =>
        Leaves.RemoveRanked(s, key);
        var (s', removed) := Leaves.Remove(s, key);
        if removed {
          nodes := Put(nodes, maxKeys, id, LeafPage(s'));
        }
        r := Ok(removed);
      case InternalPage(s) =>
        var child := Internals.FindChild(s, key);
        if child < 0 || child == id {
          return Err(InvalidChild);
        }
        DeleteFromUnfolds(Model(), maxKeys, id, key, depth, visited, s);
        r := DeleteHelper(child, key, depth + 1, visited + {id});
      case OtherPage(_) =>
        r := Err(UnknownNodeType);
    }

    // -------------------------------------------------------------------
    // getStat and validation
    // -------------------------------------------------------------------

    /** `getStat()`. */
    method GetStat() returns (st: Statistics)
      requires Valid()
      ensures st == StatOp(Model(), maxKeys)
    {
      if rootPageId == -1 {
        return Statistics(0, 0, 0, 0, splitCount, mergeCount);
      }
      var t := CalculateTreeStats(rootPageId, 0, {});
      st := Statistics(t.slots, t.used, t.height, t.nodes, splitCount, mergeCount);
    }

    /** `calculateTreeStats(id, height, visited)`. */
    method CalculateTreeStats(id: int, height: int, visited: set<int>) returns (r: Stats)
      requires Valid() && IsInt32(id)
      ensures r == TreeStats(nodes, maxKeys, id, height, visited)
      decreases Int32Ids() - visited
    {
      if id < 0 || id in visited {
        return Stats(0, 0, 0, 0);
      }
      match Load(nodes, maxKeys, id)
      case LeafPage(s) =>
        r := Stats(height + 1, 1, maxKeys, s.keyCount);
      case InternalPage(s) =>
        assert id in Int32Ids();
        var kids := Internals.Children(s);
        var seen := visited + {id};
        r := Stats(height + 1, 1, maxKeys, s.keyCount);
        var i := 0;
        while i < |kids|
          invariant 0 <= i <= |kids|
          invariant ChildStats(nodes, maxKeys, kids, i, height, seen, r) == TreeStats(nodes, maxKeys, id, height, visited)
        {
          var child := kids[i];
          if child != -1 && child !in seen {
            var c := CalculateTreeStats(child, height + 1, seen);
            r := Stats(Max(r.height, c.height), r.nodes + c.nodes, r.slots + c.slots, r.used + c.used);
          }
          i := i + 1;
        }
      case OtherPage(_) =>
        r := Stats(0, 0, 0, 0);
    }

    /** `validateTreeStructure()`. */
    method ValidateTreeStructure() returns (c: Check)
      requires Valid()
      ensures rootPageId != -1 ==> c == Validate(nodes, maxKeys, rootPageId, -1, {}, 0)
      ensures rootPageId == -1 ==> c == Check(Pass, [])
    {
      if rootPageId == -1 {
        return Check(Pass, []);
      }
      c := ValidateNode(rootPageId, -1, {}, 0);
    }

    /** `validateNode(id, expected, visited, depth)`: the parent pointer
        checked against `expected` (a warning when it differs), an internal
        node first scanned for itself among its children, then each child
        validated in turn. */
    method ValidateNode(id: int, expected: int, visited: set<int>, depth: nat) returns (c: Check)
      requires Valid()
      ensures c == Validate(nodes, maxKeys, id, expected, visited, depth)
      decreases MAX_DEPTH + 1 - depth
    {
      if depth > MAX_DEPTH {
        return Check(Fail(DepthExceeded), []);
      }
      if id < 0 || id in visited {
        return Check(Pass, []);
      }
      match Load(nodes, maxKeys, id)
      case InternalPage(s) =>
        var w := if s.parent != expected then [(id, expected)] else [];
        var kids := Internals.Children(s);
        var i := 0;
        while i < |kids|
          invariant 0 <= i <= |kids| && id !in kids[..i]
        {
          if kids[i] == id {
            return Check(Fail(SelfReference), w);
          }
          assert kids[..i + 1] == kids[..i] + [kids[i]];
          i := i + 1;
        }
        assert kids[..i] == kids;
        var seen := visited + {id};
        c := Check(Pass, w);
        i := 0;
        while i < |kids|
          invariant 0 <= i <= |kids| && c.outcome == Pass
          invariant ValidateKids(nodes, maxKeys, kids, i, id, seen, depth, c.warnings)
                      == Validate(nodes, maxKeys, id, expected, visited, depth)
        {
          if kids[i] != -1 {
            var k := ValidateNode(kids[i], id, seen, depth + 1);
            if k.outcome.Fail? {
              return Check(k.outcome, c.warnings + k.warnings);
            }
            c := Check(Pass, c.warnings + k.warnings);
          }
          i := i + 1;
        }
      case LeafPage(s) =>
        c := Check(Pass, if s.parent != expected then [(id, expected)] else []);
      case OtherPage(_) =>
        c := Check(Pass, []);
    }
  }
}

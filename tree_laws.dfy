/** What `insert`, `get`, `delete` and `getStat` of BPlusTreeImpl.java
    promise, proved about the functions of TreeOps: a lookup after an
    insert or a delete, the first insert into an empty tree, the entries a
    leaf split keeps, the routing of a new root, and the statistics. */
module TreeLaws {
  import opened Types
  import opened NodeBase
  import opened TreeSpec
  import opened TreeOps
  import Pages
  import Leaves
  import LeafCodec
  import Internals
  import InternalCodec

  // ---------------------------------------------------------------------
  // Rewriting one leaf
  // ---------------------------------------------------------------------

  /** Writing an ordered leaf keeps every leaf of the store ordered. */
  lemma PutOrdered(store: map<int, Node>, l: int, s: Leaves.LeafState)
    requires LeavesOrdered(store) && Leaves.Ordered(s)
    ensures LeavesOrdered(store[l := LeafPage(s)])
  {
  }

  /** The leaf a descent reaches in a well-formed store is one of its pages. */
  lemma LeafIsStored(store: map<int, Node>, maxKeys: int, l: int, s: Leaves.LeafState)
    requires StoreWf(store, maxKeys) && Load(store, maxKeys, l) == LeafPage(s)
    ensures l in store && store[l] == LeafPage(s)
  {
  }

  /** After leaf `l` is rewritten as `s'`, `get(k)` answers from `s'` when
      its descent reaches `l`, and as before otherwise. */
  lemma GetAfterLeafWrite(db: Db, maxKeys: int, l: int, s: Leaves.LeafState, s': Leaves.LeafState, k: Str)
    requires DbWf(db, maxKeys) && 0 <= l && IsInt32(l) && Load(db.nodes, maxKeys, l) == LeafPage(s)
    requires NodeWf(LeafPage(s'), maxKeys)
    ensures DbWf(db.(nodes := db.nodes[l := LeafPage(s')]), maxKeys)
    ensures GetOp(db.(nodes := db.nodes[l := LeafPage(s')]), maxKeys, k)
              == if db.root != -1 && Descend(db.nodes, maxKeys, db.root, k, 0, {}) == AtLeaf(l, s)
                 then Ok(Leaves.Search(s', k))
                 else GetOp(db, maxKeys, k)
  {
    DescendAfterLeafWrite(db.nodes, maxKeys, l, s', db.root, k, 0, {});
  }

  // ---------------------------------------------------------------------
  // delete
  // ---------------------------------------------------------------------

  /** `delete(key)` on a tree whose leaves are ordered: it throws exactly
      when `get(key)` throws (a self-referencing child reported as an
      invalid child), it changes no field but the pages, it changes nothing
      when `get(key)` finds nothing, it keeps the leaves ordered, and
      afterwards `get(key)` finds nothing while every other key finds what
      it found before. */
  lemma DeleteLaws(db: Db, maxKeys: int, key: Str, k: Str)
    requires DbWf(db, maxKeys) && LeavesOrdered(db.nodes)
    ensures var (db', o) := DeleteOp(db, maxKeys, key);
            var g := GetOp(db, maxKeys, key);
            && (o.Pass? <==> g.Ok?)
            && (o.Fail? ==> db' == db && o.error == if g.error == SelfReference then InvalidChild else g.error)
            && db' == db.(nodes := db'.nodes)
            && (g == Ok([]) ==> db' == db)
            && LeavesOrdered(db'.nodes)
            && (o.Pass? ==> GetOp(db', maxKeys, key) == Ok([]))
            && (k != key ==> GetOp(db', maxKeys, k) == GetOp(db, maxKeys, k))
  {
    if db.root != -1 {
      match Descend(db.nodes, maxKeys, db.root, key, 0, {})
      case AtLeaf(l, s) =>
        LeafIsStored(db.nodes, maxKeys, l, s);
        var (s', removed) := Leaves.Remove(s, key);
        if removed {
          Leaves.RemoveEntries(s, key);
          Leaves.RemoveRanked(s, key);
          LeafCodec.RemoveStored(s, key);
          PutOrdered(db.nodes, l, s');
          GetAfterLeafWrite(db, maxKeys, l, s, s', key);
          GetAfterLeafWrite(db, maxKeys, l, s, s', k);
          Leaves.SearchAfterRemove(s, key);
          if k != key {
            Leaves.SearchOtherAfterRemove(s, key, k);
          }
        }
      case Missing =>
      case Stopped(e) =>
    }
  }

  // ---------------------------------------------------------------------
  // insert
  // ---------------------------------------------------------------------

  /** The first `insert` into an empty tree takes the page id the
      allocator hands out as the root. A leaf of one entry fits its page
      exactly when the entry has at most 61 values: then that leaf's image
      is written there, no other page changes and the metadata is saved;
      otherwise `serialize` throws, no page is written and the metadata is
      not saved, though the root and next page ids have moved on. */
  lemma FirstLeaf(db: Db, maxKeys: int, key: Str, value: Option<seq<Str>>, rowId: Str)
    requires DbWf(db, maxKeys) && db.root == -1 && 0 <= db.next
    ensures var (db', o) := InsertOp(db, maxKeys, key, value, rowId);
            var t := LeafCodec.KeptLeaf(Leaves.Insert(Leaves.Fresh(maxKeys), key, value, rowId).value);
            && db'.root == db.next && db'.next == Inc32(db.next)
            && (o == Pass <==> LeafCodec.ValueCount(value) <= 61)
            && (o != Pass ==> o == Fail(PageSpaceExhausted) && db' == db.(root := db.next, next := Inc32(db.next)))
            && (o == Pass ==>
                  && db'.meta == MetadataBytes(db'.root, db'.next, db'.splits, db'.merges)
                  && db'.nodes == db.nodes[db.next := LeafPage(t)]
                  && Leaves.Ordered(t) && LeafCodec.AsStored(t) && !Leaves.IsFull(t)
                  && Leaves.Entries(t) == [LeafCodec.KeptEntry(Leaves.Entry(key, rowId, value))])
  {
    var f := Leaves.Fresh(maxKeys);
    var leaf := Leaves.Insert(f, key, value, rowId).value;
    Leaves.InsertNew(f, key, value, rowId);
    assert Leaves.Entries(f) == [];
    assert Leaves.Entries(leaf)[0].value == leaf.vals[0] == value;
    LeafCodec.LoneEntryFits(leaf);
    var t := LeafCodec.KeptLeaf(leaf);
    LeafCodec.KeptIsStored(leaf);
    LeafCodec.EntriesKept(leaf);
    assert Leaves.Ordered(t);
  }

  /** `insert` whose descent reaches a leaf with room: when the leaf with
      the entry added fits its page, its image is written and nothing else
      changes; otherwise `serialize` throws and nothing changes at all. */
  lemma InsertWithRoom(db: Db, maxKeys: int, key: Str, value: Option<seq<Str>>, rowId: Str)
    requires DbWf(db, maxKeys) && db.root != -1
    requires var d := Descend(db.nodes, maxKeys, db.root, key, 0, {});
             d.AtLeaf? && !Leaves.IsFull(d.leaf)
    ensures var d := Descend(db.nodes, maxKeys, db.root, key, 0, {});
            var s' := Leaves.Insert(d.leaf, key, value, rowId).value;
            && LeafCodec.AsStored(d.leaf)
            && InsertOp(db, maxKeys, key, value, rowId)
                 == if LeafCodec.Fits(s') then (db.(nodes := db.nodes[d.id := LeafPage(LeafCodec.KeptLeaf(s'))]), Pass)
                    else (db, Fail(PageSpaceExhausted))
  {
    var d := Descend(db.nodes, maxKeys, db.root, key, 0, {});
    LeafIsStored(db.nodes, maxKeys, d.id, d.leaf);
  }

  /** The first `insert` into an empty tree of an entry with at most 61
      values: the root becomes a leaf at the page id the allocator handed
      out, the metadata is saved, and the leaf holds the one entry as its
      page reads back: key and row id cut to 60 bytes, an empty value array
      as null. `get` then finds that value array under the cut key and
      nothing under any other key. */
  lemma FirstInsert(db: Db, maxKeys: int, key: Str, value: Option<seq<Str>>, rowId: Str, k: Str)
    requires DbWf(db, maxKeys) && db.root == -1 && 0 <= db.next
    ensures var (db', o) := InsertOp(db, maxKeys, key, value, rowId);
            && (o == Pass <==> LeafCodec.ValueCount(value) <= 61)
            && (o == Pass ==>
                  && db'.root == db.next && db'.next == Inc32(db.next)
                  && db'.meta == MetadataBytes(db'.root, db'.next, db'.splits, db'.merges)
                  && Load(db'.nodes, maxKeys, db'.root).LeafPage?
                  && Leaves.Entries(Load(db'.nodes, maxKeys, db'.root).leaf)
                       == [Leaves.Entry(LeafCodec.Kept(key), LeafCodec.Kept(rowId), LeafCodec.KeptValues(value))]
                  && GetOp(db', maxKeys, k) == Ok(if k == LeafCodec.Kept(key) then [LeafCodec.KeptValues(value)] else []))
  {
    FirstLeaf(db, maxKeys, key, value, rowId);
    if LeafCodec.ValueCount(value) <= 61 {
      var t := LeafCodec.KeptLeaf(Leaves.Insert(Leaves.Fresh(maxKeys), key, value, rowId).value);
      var db' := InsertOp(db, maxKeys, key, value, rowId).0;
      assert Load(db'.nodes, maxKeys, db'.root) == LeafPage(t);
      GetAtRootLeaf(db', maxKeys, k);
      Leaves.SearchIsLookup(t, k);
      assert Leaves.Lookup(Leaves.Entries(t), k) == (if k == LeafCodec.Kept(key) then [LeafCodec.KeptValues(value)] else []);
    }
  }

  /** A tree whose root is a leaf: `get` is the search of that leaf. */
  lemma GetAtRootLeaf(db: Db, maxKeys: int, k: Str)
    requires DbWf(db, maxKeys) && db.root >= 0 && Load(db.nodes, maxKeys, db.root).LeafPage?
    ensures GetOp(db, maxKeys, k) == Ok(Leaves.Search(Load(db.nodes, maxKeys, db.root).leaf, k))
  {
    assert Descend(db.nodes, maxKeys, db.root, k, 0, {}) == AtLeaf(db.root, Load(db.nodes, maxKeys, db.root).leaf);
  }

  /** `insert(key, ...)` when the descent for `key` reaches a leaf with
      room: it succeeds exactly when the leaf with the entry added fits its
      page, and otherwise changes nothing. When it succeeds, a key that
      fits its 60-byte slot is found with its value array as the page reads
      it back, and every other key finds what it found before; a longer key
      is stored cut, so `get` of the key itself finds nothing. */
  lemma GetAfterInsert(db: Db, maxKeys: int, key: Str, value: Option<seq<Str>>, rowId: Str, k: Str)
    requires DbWf(db, maxKeys) && LeavesOrdered(db.nodes) && db.root != -1
    requires var d := Descend(db.nodes, maxKeys, db.root, key, 0, {});
             d.AtLeaf? && !Leaves.IsFull(d.leaf)
    ensures var (db', o) := InsertOp(db, maxKeys, key, value, rowId);
            var d := Descend(db.nodes, maxKeys, db.root, key, 0, {});
            && (o == Pass <==> LeafCodec.Fits(Leaves.Insert(d.leaf, key, value, rowId).value))
            && (o != Pass ==> db' == db && o == Fail(PageSpaceExhausted))
            && (o == Pass ==>
                  && GetOp(db', maxKeys, key) == Ok(if |key| <= LeafCodec.SLOT - 4 then [LeafCodec.KeptValues(value)] else [])
                  && (|key| <= LeafCodec.SLOT - 4 && k != key ==> GetOp(db', maxKeys, k) == GetOp(db, maxKeys, k)))
  {
    var d := Descend(db.nodes, maxKeys, db.root, key, 0, {});
    var l, s := d.id, d.leaf;
    InsertWithRoom(db, maxKeys, key, value, rowId);
    var s' := Leaves.Insert(s, key, value, rowId).value;
    if !LeafCodec.Fits(s') {
      return;
    }
    Leaves.InsertRanked(s, key, value, rowId);
    var t := LeafCodec.KeptLeaf(s');
    LeafCodec.KeptIsStored(s');
    LeafCodec.KeptRanked(s');
    GetAfterLeafWrite(db, maxKeys, l, s, t, key);
    GetAfterLeafWrite(db, maxKeys, l, s, t, k);
    LeafCodec.InsertReadBack(s, key, value, rowId, k);
  }

  /** `insert` of a key that fits its 60-byte slot keeps every leaf
      ordered, on every path: a leaf with room takes the entry in order, a
      full leaf splits into two ordered halves, and the climb through the
      parents writes no leaf. */
  lemma InsertOrdered(db: Db, maxKeys: int, key: Str, value: Option<seq<Str>>, rowId: Str)
    requires DbWf(db, maxKeys) && LeavesOrdered(db.nodes)
    ensures |key| <= LeafCodec.SLOT - 4 ==> LeavesOrdered(InsertOp(db, maxKeys, key, value, rowId).0.nodes)
  {
    if |key| <= LeafCodec.SLOT - 4 {
      if db.root == -1 {
        if db.next >= 0 {
          var f := Leaves.Fresh(maxKeys);
          var leaf := Leaves.Insert(f, key, value, rowId).value;
          InsertKeepsOrder(f, key, value, rowId);
          LeafCodec.InsertKeysKept(f, key, value, rowId);
          LeafCodec.KeptLeafOrdered(leaf);
          PutOrdered(db.nodes, db.next, LeafCodec.KeptLeaf(leaf));
        }
      } else {
        match Descend(db.nodes, maxKeys, db.root, key, 0, {})
        case AtLeaf(l, s) =>
          LeafInsertOrdered(db, maxKeys, l, s, key, value, rowId);
        case Missing =>
        case Stopped(_) =>
      }
    }
  }

  /** The leaf step of `insert`, with a key that fits its slot, keeps every
      leaf ordered. */
  lemma LeafInsertOrdered(db: Db, maxKeys: int, id: int, s: Leaves.LeafState, key: Str,
                          value: Option<seq<Str>>, rowId: Str)
    requires DbWf(db, maxKeys) && 0 <= id && IsInt32(id) && Load(db.nodes, maxKeys, id) == LeafPage(s)
    requires LeavesOrdered(db.nodes)
    ensures |key| <= LeafCodec.SLOT - 4 ==> LeavesOrdered(LeafInsert(db, maxKeys, id, s, key, value, rowId).0.nodes)
  {
    LeafIsStored(db.nodes, maxKeys, id, s);
    if |key| > LeafCodec.SLOT - 4 {
      return;
    }
    if !Leaves.IsFull(s) {
      var s' := Leaves.Insert(s, key, value, rowId).value;
      InsertKeepsOrder(s, key, value, rowId);
      LeafCodec.InsertKeysKept(s, key, value, rowId);
      LeafCodec.KeptLeafOrdered(s');
      PutOrdered(db.nodes, id, LeafCodec.KeptLeaf(s'));
    } else {
      SplitInsertOrdered(db, maxKeys, id, s, key, value, rowId);
    }
  }

  /** The full-leaf path of `insert`, with a key that fits its slot, keeps
      every leaf ordered. */
  lemma SplitInsertOrdered(db: Db, maxKeys: int, id: int, s: Leaves.LeafState, key: Str,
                           value: Option<seq<Str>>, rowId: Str)
    requires DbWf(db, maxKeys) && 0 <= id && IsInt32(id) && Load(db.nodes, maxKeys, id) == LeafPage(s)
    requires LeavesOrdered(db.nodes) && Leaves.IsFull(s) && |key| <= LeafCodec.SLOT - 4
    ensures LeavesOrdered(LeafInsert(db, maxKeys, id, s, key, value, rowId).0.nodes)
  {
    LeafIsStored(db.nodes, maxKeys, id, s);
    var newId := db.next;
    var (l, r) := SplitLeafInsert(s, key, value, rowId, newId);
    SplitLeafInsertParts(s, key, value, rowId, newId);
    SplitLeafInsertRanked(s, key, value, rowId, newId);
    SplitLeafInsertKeysKept(s, key, value, rowId, newId);
    LeafCodec.KeptLeafOrdered(l);
    LeafCodec.KeptLeafOrdered(r);
    if !LeafCodec.Fits(l) {
      return;
    }
    var n1 := Put(db.nodes, maxKeys, id, LeafPage(l));
    PutOrdered(db.nodes, id, LeafCodec.KeptLeaf(l));
    if newId >= 0 && LeafCodec.Fits(r) {
      var n2 := Put(n1, maxKeys, newId, LeafPage(r));
      PutOrdered(n1, newId, LeafCodec.KeptLeaf(r));
      var b := InsertUpLeaves(db.(next := Inc32(db.next)).(nodes := n2, splits := Inc32(db.splits)),
                              maxKeys, id, l.parent, r.keys[0].value, newId, PARENT_FUEL);
      OrderedFrom(n2, b, maxKeys);
    }
  }

  /** Two keys longer than their 60-byte slot that share their first 60
      bytes (or one such key inserted twice) become two entries under the
      same key: the first insert into an empty tree stores the cut key, the
      second finds no entry equal to its uncut key and adds one, whose
      stored key is that same cut key. With at most 29 values each, both
      entries fit the page. */
  lemma LongKeysCollide(db: Db, maxKeys: int, a: Str, b: Str, va: Option<seq<Str>>, vb: Option<seq<Str>>,
                        ra: Str, rb: Str)
    requires DbWf(db, maxKeys) && db.root == -1 && 0 <= db.next
    requires |a| > LeafCodec.SLOT - 4 && |b| > LeafCodec.SLOT - 4
    requires a[..LeafCodec.SLOT - 4] == b[..LeafCodec.SLOT - 4]
    requires LeafCodec.ValueCount(va) <= 29 && LeafCodec.ValueCount(vb) <= 29
    ensures var (db1, o1) := InsertOp(db, maxKeys, a, va, ra);
            var (db2, o2) := InsertOp(db1, maxKeys, b, vb, rb);
            && o1 == Pass && o2 == Pass && db2.root == db.next
            && Load(db2.nodes, maxKeys, db2.root).LeafPage?
            && var es := Leaves.Entries(Load(db2.nodes, maxKeys, db2.root).leaf);
               |es| == 2 && es[0].key == es[1].key == a[..LeafCodec.SLOT - 4]
  {
    FirstLeaf(db, maxKeys, a, va, ra);
    var t := LeafCodec.KeptLeaf(Leaves.Insert(Leaves.Fresh(maxKeys), a, va, ra).value);
    var db1 := InsertOp(db, maxKeys, a, va, ra).0;
    assert Load(db1.nodes, maxKeys, db.next) == LeafPage(t);
    assert Descend(db1.nodes, maxKeys, db.next, b, 0, {}) == AtLeaf(db.next, t);
    LeafCodec.KeptIsPrefix(a);
    LeafCodec.KeptIsPrefix(b);
    assert LeafCodec.Kept(a) == LeafCodec.Kept(b) == a[..LeafCodec.SLOT - 4];
    InsertWithRoom(db1, maxKeys, b, vb, rb);
    SecondEntryFits(t, b, vb, rb);
    LeafCodec.LongKeyJoinsCut(t, b, vb, rb);
    var u := LeafCodec.KeptLeaf(Leaves.Insert(t, b, vb, rb).value);
    assert InsertOp(db1, maxKeys, b, vb, rb) == (db1.(nodes := db1.nodes[db.next := LeafPage(u)]), Pass);
  }

  /** A long key added beside a lone entry, each with at most 29 values:
      the two entries fit the page. */
  lemma SecondEntryFits(t: Leaves.LeafState, key: Str, value: Option<seq<Str>>, rowId: Str)
    requires Leaves.Ordered(t) && LeafCodec.AsStored(t) && !Leaves.IsFull(t) && |key| > LeafCodec.SLOT - 4
    requires |Leaves.Entries(t)| == 1 && LeafCodec.ValueCount(Leaves.Entries(t)[0].value) <= 29
    requires LeafCodec.ValueCount(value) <= 29
    ensures LeafCodec.Fits(Leaves.Insert(t, key, value, rowId).value)
  {
    LeafCodec.LongKeyNotPresent(t, key);
    Leaves.InsertNew(t, key, value, rowId);
    var u := Leaves.Insert(t, key, value, rowId).value;
    var p := CountLess(t.keys, t.keyCount, key);
    assert p == 0 || p == 1;
    forall i | 0 <= i < u.keyCount
      ensures LeafCodec.ValueCount(u.vals[i]) <= 29
    {
      assert Leaves.Entries(u)[i].value == u.vals[i];
    }
    LeafCodec.FewValuesFit(u, 29);
  }

  /** A leaf that differs only in its parent pointer holds the same entries. */
  lemma SameLeafEntries(x: Leaves.LeafState, y: Leaves.LeafState)
    requires Leaves.Wf(x) && Leaves.Wf(y) && SameLeaf(x, y)
    ensures Leaves.Entries(y) == Leaves.Entries(x) && y.next == x.next && y.keys == x.keys
  {
    assert y.keyCount == x.keyCount && y.keys == x.keys && y.rowIds == x.rowIds && y.vals == x.vals;
  }

  /** The full-leaf path of `insert` when both halves fit their pages,
      with every page id in use below the next one and room below
      2^31 - 1 for the ids the climb may allocate: the full leaf keeps its
      page and the new leaf takes the next page id, they are linked full
      leaf, new leaf, old successor, and every other leaf stays as it was.
      With a key that fits its 60-byte slot, every key of the first lies
      below every key of the second, and together they map `key` to its
      value array as the page reads it back and every other key as the
      full leaf did. */
  lemma LeafSplitEntries(db: Db, maxKeys: int, id: int, s: Leaves.LeafState, key: Str,
                         value: Option<seq<Str>>, rowId: Str, k: Str)
    requires DbWf(db, maxKeys) && 0 <= id && IsInt32(id) && Load(db.nodes, maxKeys, id) == LeafPage(s)
    requires Leaves.Ordered(s) && Leaves.IsFull(s)
    requires Allocated(db) && 0 <= db.next && db.next + 1 + PARENT_FUEL <= 0x7fff_ffff
    ensures var (l0, r0) := SplitLeafInsert(s, key, value, rowId, db.next);
            var b := LeafInsert(db, maxKeys, id, s, key, value, rowId).0.nodes;
            var l, r := LeafOf(b, id), LeafOf(b, db.next);
            LeafCodec.Fits(l0) && LeafCodec.Fits(r0) ==>
              && l.Some? && r.Some?
              && l.value.next == db.next && r.value.next == s.next
              && (|key| <= LeafCodec.SLOT - 4 ==>
                    && Below(l.value, r.value)
                    && Leaves.Lookup(Leaves.Entries(l.value) + Leaves.Entries(r.value), k)
                         == (if k == key then [LeafCodec.KeptValues(value)] else Leaves.Lookup(Leaves.Entries(s), k)))
              && (forall x :: x != id && LeafOf(db.nodes, x).Some? ==>
                    LeafOf(b, x).Some? && SameLeaf(LeafOf(db.nodes, x).value, LeafOf(b, x).value))
  {
    LeafIsStored(db.nodes, maxKeys, id, s);
    var (l, r) := SplitLeafInsert(s, key, value, rowId, db.next);
    if LeafCodec.Fits(l) && LeafCodec.Fits(r) {
      SplitFitsEntries(db, maxKeys, id, s, key, value, rowId, k);
    }
  }

  /** `LeafSplitEntries` on the path where both halves fit. */
  lemma SplitFitsEntries(db: Db, maxKeys: int, id: int, s: Leaves.LeafState, key: Str,
                         value: Option<seq<Str>>, rowId: Str, k: Str)
    requires DbWf(db, maxKeys) && 0 <= id && IsInt32(id) && Load(db.nodes, maxKeys, id) == LeafPage(s)
    requires Leaves.Ordered(s) && Leaves.IsFull(s)
    requires Allocated(db) && 0 <= db.next && db.next + 1 + PARENT_FUEL <= 0x7fff_ffff
    requires var (l0, r0) := SplitLeafInsert(s, key, value, rowId, db.next);
             LeafCodec.Fits(l0) && LeafCodec.Fits(r0)
    ensures var b := LeafInsert(db, maxKeys, id, s, key, value, rowId).0.nodes;
            var l, r := LeafOf(b, id), LeafOf(b, db.next);
            && l.Some? && r.Some?
            && l.value.next == db.next && r.value.next == s.next
            && (|key| <= LeafCodec.SLOT - 4 ==>
                  && Below(l.value, r.value)
                  && Leaves.Lookup(Leaves.Entries(l.value) + Leaves.Entries(r.value), k)
                       == (if k == key then [LeafCodec.KeptValues(value)] else Leaves.Lookup(Leaves.Entries(s), k)))
            && (forall x :: x != id && LeafOf(db.nodes, x).Some? ==>
                  LeafOf(b, x).Some? && SameLeaf(LeafOf(db.nodes, x).value, LeafOf(b, x).value))
  {
    LeafIsStored(db.nodes, maxKeys, id, s);
    var (l, r) := SplitLeafInsert(s, key, value, rowId, db.next);
    var n2, b := LeafSplitClimb(db, maxKeys, id, s, key, value, rowId);
    SplitLeafInsertParts(s, key, value, rowId, db.next);
    var kl, kr := LeafCodec.KeptLeaf(l), LeafCodec.KeptLeaf(r);
    LeafCodec.KeptIsStored(l);
    LeafCodec.KeptIsStored(r);
    SplitKeepsOthers(db.nodes, n2, b, id, db.next, kl, kr);
    SameLeafEntries(kl, LeafOf(b, id).value);
    SameLeafEntries(kr, LeafOf(b, db.next).value);
    if |key| <= LeafCodec.SLOT - 4 {
      SplitReadBack(s, key, value, rowId, db.next, k);
    }
  }

  /** The full-leaf path of `insert` when a half does not fit its page:
      the next page id has been taken and nothing is counted. With the
      first half too large no page is written; with only the second too
      large the first half is written at the full leaf's page and the new
      leaf's page is not. */
  lemma LeafSplitOverflow(db: Db, maxKeys: int, id: int, s: Leaves.LeafState, key: Str,
                          value: Option<seq<Str>>, rowId: Str)
    requires DbWf(db, maxKeys) && 0 <= id && IsInt32(id) && Load(db.nodes, maxKeys, id) == LeafPage(s)
    requires Leaves.IsFull(s) && 0 <= db.next
    ensures var (l, r) := SplitLeafInsert(s, key, value, rowId, db.next);
            var (db', o) := LeafInsert(db, maxKeys, id, s, key, value, rowId);
            && (!LeafCodec.Fits(l) ==> o == Fail(PageSpaceExhausted) && db' == db.(next := Inc32(db.next)))
            && (LeafCodec.Fits(l) && !LeafCodec.Fits(r) ==>
                  && o == Fail(PageSpaceExhausted)
                  && db' == db.(next := Inc32(db.next), nodes := db.nodes[id := LeafPage(LeafCodec.KeptLeaf(l))]))
  {
    LeafIsStored(db.nodes, maxKeys, id, s);
    SplitLeafInsertRanked(s, key, value, rowId, db.next);
    var (l, r) := SplitLeafInsert(s, key, value, rowId, db.next);
  }

  /** The two halves of a full leaf image split around a key that fits its
      slot, read back: every key of the first lies below every key of the
      second, and together they map `key` to its value array as the page
      reads it back and every other key as the full leaf did. */
  lemma SplitReadBack(s: Leaves.LeafState, key: Str, value: Option<seq<Str>>, rowId: Str, newId: int, k: Str)
    requires Leaves.Ordered(s) && LeafCodec.AsStored(s) && Leaves.IsFull(s) && |s.keys| >= 3 && IsInt32(newId)
    requires |key| <= LeafCodec.SLOT - 4
    ensures var (l, r) := SplitLeafInsert(s, key, value, rowId, newId);
            var kl, kr := LeafCodec.KeptLeaf(l), LeafCodec.KeptLeaf(r);
            && Below(kl, kr)
            && Leaves.Lookup(Leaves.Entries(kl) + Leaves.Entries(kr), k)
                 == (if k == key then [LeafCodec.KeptValues(value)] else Leaves.Lookup(Leaves.Entries(s), k))
  {
    var (l, r) := SplitLeafInsert(s, key, value, rowId, newId);
    SplitLeafInsertParts(s, key, value, rowId, newId);
    SplitLeafInsertKeysKept(s, key, value, rowId, newId);
    BelowKept(l, r);
    SplitLookupKept(s, key, value, rowId, newId, k);
  }

  /** Leaves whose keys fit keep their order when read back. */
  lemma BelowKept(l: Leaves.LeafState, r: Leaves.LeafState)
    requires Leaves.Wf(l) && Leaves.Wf(r) && LeafCodec.KeysKept(l) && LeafCodec.KeysKept(r) && Below(l, r)
    ensures Leaves.Wf(LeafCodec.KeptLeaf(l)) && Leaves.Wf(LeafCodec.KeptLeaf(r))
    ensures Below(LeafCodec.KeptLeaf(l), LeafCodec.KeptLeaf(r))
  {
    LeafCodec.KeptIsStored(l);
    LeafCodec.KeptIsStored(r);
    LeafCodec.KeptKeys(l);
    LeafCodec.KeptKeys(r);
  }

  lemma SplitLookupKept(s: Leaves.LeafState, key: Str, value: Option<seq<Str>>, rowId: Str, newId: int, k: Str)
    requires Leaves.Ordered(s) && LeafCodec.AsStored(s) && Leaves.IsFull(s) && |s.keys| >= 3 && IsInt32(newId)
    requires |key| <= LeafCodec.SLOT - 4
    ensures var (l, r) := SplitLeafInsert(s, key, value, rowId, newId);
            Leaves.Lookup(Leaves.Entries(LeafCodec.KeptLeaf(l)) + Leaves.Entries(LeafCodec.KeptLeaf(r)), k)
              == (if k == key then [LeafCodec.KeptValues(value)] else Leaves.Lookup(Leaves.Entries(s), k))
  {
    var (l, r) := SplitLeafInsert(s, key, value, rowId, newId);
    SplitLeafInsertKeysKept(s, key, value, rowId, newId);
    LeafCodec.LookupPairKept(l, r, k);
    SplitLeafInsertLookup(s, key, value, rowId, newId, k);
    if k != key {
      LeafCodec.StoredLookup(s, k);
    }
  }

  /** Writing the two halves at `id` and at the fresh id `newId`, then a
      climb that keeps every leaf up to `newId`: both halves survive, and
      so does every other leaf. */
  lemma SplitKeepsOthers(a: map<int, Node>, n2: map<int, Node>, b: map<int, Node>, id: int, newId: int,
                         l: Leaves.LeafState, r: Leaves.LeafState)
    requires id in a && forall x :: x in a ==> x < newId
    requires n2 == a[id := LeafPage(l)][newId := LeafPage(r)] && LeavesKept(n2, b, newId + 1)
    ensures LeafOf(b, id).Some? && SameLeaf(l, LeafOf(b, id).value)
    ensures LeafOf(b, newId).Some? && SameLeaf(r, LeafOf(b, newId).value)
    ensures forall x :: x != id && LeafOf(a, x).Some? ==>
              LeafOf(b, x).Some? && SameLeaf(LeafOf(a, x).value, LeafOf(b, x).value)
  {
    assert LeafOf(n2, id) == Some(l) && LeafOf(n2, newId) == Some(r);
    forall x | x != id && LeafOf(a, x).Some?
      ensures LeafOf(b, x).Some? && SameLeaf(LeafOf(a, x).value, LeafOf(b, x).value)
    {
      assert LeafOf(n2, x) == LeafOf(a, x);
    }
  }

  /** A new root made by `insertToParent` holds `key` as its page reads
      it back, cut to 60 bytes: it routes every key below that to the left
      page and every other key to the right page, and both pages point back
      at it. */
  lemma NewRootRoutes(db: Db, maxKeys: int, leftId: int, key: Str, rightId: int, k: Str)
    requires DbWf(db, maxKeys) && 0 <= leftId && IsInt32(leftId) && 0 <= rightId && IsInt32(rightId)
    requires key != [] && NewRoot(db, maxKeys, leftId, key, rightId).1.Pass?
    ensures var db' := NewRoot(db, maxKeys, leftId, key, rightId).0;
            && db'.root == db.next && Load(db'.nodes, maxKeys, db'.root).InternalPage?
            && Internals.FindChild(Load(db'.nodes, maxKeys, db'.root).internal, k)
                 == (if Less(k, Pages.StoredString(key, InternalCodec.KEY_SLOT)) then leftId else rightId)
            && (!Load(db.nodes, maxKeys, leftId).OtherPage? ==> ParentOf(Load(db'.nodes, maxKeys, leftId)) == db'.root)
            && (!Load(db.nodes, maxKeys, rightId).OtherPage? ==> ParentOf(Load(db'.nodes, maxKeys, rightId)) == db'.root)
  {
    var empty := Internals.Fresh(maxKeys);
    InsertAtNonEmpty(empty, key, leftId, rightId);
    var root := Internals.InsertKeyChild(empty, key, leftId, rightId).value;
    RootRoutes(maxKeys, key, leftId, rightId, k);
    assert Load(NewRoot(db, maxKeys, leftId, key, rightId).0.nodes, maxKeys, db.next)
           == InternalPage(InternalCodec.KeptInternal(root));
  }

  /** The root page `insertToParent` builds, as it reads back, routes keys
      below the cut separator left and all others right. */
  lemma RootRoutes(maxKeys: int, key: Str, leftId: int, rightId: int, k: Str)
    requires ValidMaxKeys(maxKeys) && key != []
    requires 0 <= leftId && IsInt32(leftId) && 0 <= rightId && IsInt32(rightId)
    ensures var empty := Internals.Fresh(maxKeys);
            var root := Internals.InsertKeyChild(empty, key, leftId, rightId);
            && root.Ok?
            && Internals.FindChild(InternalCodec.KeptInternal(root.value), k)
                 == (if Less(k, Pages.StoredString(key, InternalCodec.KEY_SLOT)) then leftId else rightId)
  {
    var empty := Internals.Fresh(maxKeys);
    Internals.InsertKeyChildOrdered(empty, key, leftId, rightId);
    var root := Internals.InsertKeyChild(empty, key, leftId, rightId).value;
    assert Internals.Children(root) == [leftId, rightId];
    assert root.keys[0].value == Internals.Keys(root)[0] == key;
    InternalCodec.KeptNonEmpty(root);
    var d := InternalCodec.KeptInternal(root);
    assert Internals.Children(d) == [leftId, rightId];
    assert d.keys[0].value == Pages.StoredString(key, InternalCodec.KEY_SLOT);
    assert Internals.Ordered(d);
    Internals.FindChildRoutes(d, k);
  }

  // ---------------------------------------------------------------------
  // getStat
  // ---------------------------------------------------------------------

  /** `getStat()` reports the counters as kept and numbers that add up:
      `maxKeys` slots per counted node, no more used slots than slots (a
      fill rate of at most one), and a height of at least one once a node
      is counted; an empty tree reports no node at all. */
  lemma StatLaws(db: Db, maxKeys: int)
    requires DbWf(db, maxKeys)
    ensures var st := StatOp(db, maxKeys);
            && st.splitCount == db.splits && st.mergeCount == db.merges
            && st.totalSlots == maxKeys * st.nodeCount && 0 <= st.usedSlots <= st.totalSlots
            && (st.nodeCount > 0 ==> st.height >= 1)
            && (db.root == -1 ==> st.nodeCount == 0 && st.height == 0 && st.totalSlots == 0)
  {
    if db.root != -1 {
      TreeStatsConsistent(db.nodes, maxKeys, db.root, 0, {});
    }
  }
}

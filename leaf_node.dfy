/** LeafNode.java as a class: Java's three parallel arrays and the node's
    int fields, each method proved against the function of module Leaves
    (or LeafCodec) that says what it does to the node's fields. */
module LeafNodes {
  import opened Types
  import opened NodeBase
  import opened Pages
  import opened Leaves
  import opened LeafCodec

  class LeafNode {
    var pageId: int
    var keyCount: int
    var parentPageId: int
    var nextLeafPageId: int
    const maxKeys: int
    /** `keys`, `rowIds` and `values`; Java allocates them once, in the constructor. */
    const keys: array<Option<Str>>
    const rowIds: array<Option<Str>>
    const vals: array<Option<seq<Str>>>

    /** The fields as a value. */
    function State(): LeafState
      reads this, keys, rowIds, vals
    {
      LeafState(keyCount, parentPageId, nextLeafPageId, keys[..], rowIds[..], vals[..])
    }

    /** The arrays have `maxKeys` slots and are distinct objects. */
    ghost predicate Shaped()
      reads this, keys, rowIds, vals
    {
      keys.Length == maxKeys && rowIds.Length == maxKeys && vals.Length == maxKeys
      && keys != rowIds && IsInt32(maxKeys)
    }

    ghost predicate Valid()
      reads this, keys, rowIds, vals
    {
      Shaped() && Wf(State())
    }

    /** `new LeafNode(pageId, maxKeys)`. */
    constructor (pageId: int, maxKeys: int)
      requires 0 <= maxKeys && IsInt32(maxKeys)
      ensures Valid() && State() == Fresh(maxKeys)
      ensures this.pageId == pageId && this.maxKeys == maxKeys
      ensures fresh(keys) && fresh(rowIds) && fresh(vals)
    {
      this.pageId := pageId;
      this.maxKeys := maxKeys;
      keyCount := 0;
      parentPageId := -1;
      nextLeafPageId := -1;
      keys := new Option<Str>[maxKeys](_ => None);
      rowIds := new Option<Str>[maxKeys](_ => None);
      vals := new Option<seq<Str>>[maxKeys](_ => None);
      new;
      assert keys[..] == NullKeys(maxKeys) && rowIds[..] == NullKeys(maxKeys);
    }

    /** `binarySearch(key)`: the loop walks exactly the windows `SearchWindow`
        recurses through. */
    method BinarySearch(key: Str) returns (r: int)
      requires Valid()
      ensures r == SearchPos(State(), key)
      ensures Ordered(State()) ==> r == CountLess(keys[..], keyCount, key)
    {
      var left, right := 0, keyCount - 1;
      while left <= right
        invariant 0 <= left && right < keyCount
        invariant SearchWindow(keys[..], key, left, right) == SearchPos(State(), key)
        decreases right - left
      {
        var mid := (left + right) / 2;
        if keys[mid].None? {
          right := mid - 1;
          continue;
        }
        var k := keys[mid].value;
        if k == key {
          r := mid;
          break;
        } else if Less(k, key) {
          left := mid + 1;
        } else {
          right := mid - 1;
        }
      }
      if left > right {
        r := left;
      }
      if Ordered(State()) {
        SearchPosIsCountLess(State(), key);
      }
    }

    /** `search(key)`: the key's value array in a one-element array, or an
        empty array; on an ordered leaf, what a scan of the entries finds. */
    method Search(key: Str) returns (r: seq<Option<seq<Str>>>)
      requires Valid()
      ensures r == Leaves.Search(State(), key)
      ensures Ordered(State()) ==> r == Lookup(Entries(State()), key)
    {
      var pos := BinarySearch(key);
      if pos < keyCount && keys[pos].Some? && keys[pos].value == key {
        r := [vals[pos]];
      } else {
        r := [];
      }
      if Ordered(State()) {
        SearchIsLookup(State(), key);
      }
    }

    /** `insertKeyValue(key, value, rowId)`. */
    method InsertKeyValue(key: Str, value: Option<seq<Str>>, rowId: Str) returns (r: Outcome)
      requires Valid()
      modifies this`keyCount, keys, rowIds, vals
      ensures Valid()
      ensures var t := Insert(old(State()), key, value, rowId);
              && (r.Fail? <==> t.Err?)
              && (t.Err? ==> r.error == t.error && State() == old(State()))
              && (t.Ok? ==> State() == t.value)
    {
      ghost var t := Insert(State(), key, value, rowId);
      if keyCount >= maxKeys {
        return Fail(LeafFull);
      }
      var pos := BinarySearch(key);
      if pos < keyCount && keys[pos].Some? && keys[pos].value == key {
        vals[pos] := value;
        rowIds[pos] := Some(rowId);
        assert State() == t.value;
        return Pass;
      }
      // binarySearch answers within [0, keyCount] and keyCount < maxKeys,
      // so `insertKeyValue`'s clamps and its skip of indices >= maxKeys never act.
      InsertAt(pos, key, value, rowId);
      assert State() == t.value;
      r := Pass;
    }

    /** The new-key path of `insertKeyValue`: the entry shifted in at `pos`.
        `insertKeyValue`'s one loop over the three arrays is three loops here. */
    method InsertAt(pos: int, key: Str, value: Option<seq<Str>>, rowId: Str)
      requires Shaped() && 0 <= pos <= keyCount < maxKeys
      modifies this`keyCount, keys, rowIds, vals
      ensures State() == LeafState(old(keyCount) + 1, parentPageId, nextLeafPageId,
                                   ShiftIn(old(keys[..]), old(keyCount), pos, Some(key)),
                                   ShiftIn(old(rowIds[..]), old(keyCount), pos, Some(rowId)),
                                   ShiftIn(old(vals[..]), old(keyCount), pos, value))
      ensures Shaped()
    {
      ghost var ks, rs, vs := keys[..], rowIds[..], vals[..];
      ShiftSlotsRight(keys, keyCount, pos);
      keys[pos] := Some(key);
      ShiftInStore(ks, keyCount, pos, ks[pos], Some(key));
      ShiftSlotsRight(vals, keyCount, pos);
      vals[pos] := value;
      ShiftInStore(vs, keyCount, pos, vs[pos], value);
      assert keys[..] == ShiftIn(ks, keyCount, pos, Some(key));
      ShiftSlotsRight(rowIds, keyCount, pos);
      rowIds[pos] := Some(rowId);
      ShiftInStore(rs, keyCount, pos, rs[pos], Some(rowId));
      keyCount := keyCount + 1;
    }

    /** `removeKey(key)`: whether the key was there, and the node without it. */
    method RemoveKey(key: Str) returns (removed: bool)
      requires Valid()
      modifies this`keyCount, keys, rowIds, vals
      ensures Valid()
      ensures removed == Remove(old(State()), key).1
      ensures State() == Remove(old(State()), key).0
    {
      ghost var t := Remove(State(), key);
      var pos := BinarySearch(key);
      if pos < keyCount && keys[pos].Some? && keys[pos].value == key {
        // pos < keyCount, so `removeKey`'s `keyCount > 0` guard always holds.
        RemoveAt(pos);
        assert State() == t.0;
        return true;
      }
      return false;
    }

    /** The found path of `removeKey`: slot `pos` shifted out of the three
        arrays, the last slot cleared. */
    method RemoveAt(pos: int)
      requires Shaped() && 0 <= pos < keyCount <= maxKeys
      modifies this`keyCount, keys, rowIds, vals
      ensures State() == LeafState(old(keyCount) - 1, parentPageId, nextLeafPageId,
                                   ShiftOut(old(keys[..]), old(keyCount), pos, None),
                                   ShiftOut(old(rowIds[..]), old(keyCount), pos, None),
                                   ShiftOut(old(vals[..]), old(keyCount), pos, None))
      ensures Shaped()
    {
      ghost var ks := keys[..];
      ShiftSlotsLeft(keys, keyCount, pos, None);
      ShiftSlotsLeft(vals, keyCount, pos, None);
      assert keys[..] == ShiftOut(ks, keyCount, pos, None);
      ShiftSlotsLeft(rowIds, keyCount, pos, None);
      keyCount := keyCount - 1;
    }

    /** `split()`: refused below two keys; otherwise a new leaf with page id
        -1 takes the upper half of the entries and this leaf keeps the rest. */
    method Split() returns (r: Result<LeafNode>)
      requires Valid()
      modifies this`keyCount, keys, rowIds, vals
      ensures Valid()
      ensures r.Err? <==> Leaves.Split(old(State())).Err?
      ensures r.Err? ==> r.error == TooFewKeys && State() == old(State())
      ensures r.Ok? ==>
                && fresh(r.value) && fresh(r.value.keys) && fresh(r.value.rowIds) && fresh(r.value.vals)
                && r.value.Valid() && r.value.pageId == -1 && r.value.maxKeys == maxKeys
                && State() == Leaves.Split(old(State())).value.0
                && r.value.State() == Leaves.Split(old(State())).value.1
    {
      if keyCount < 2 {
        return Err(TooFewKeys);
      }
      ghost var t := Leaves.Split(State()).value;
      var mid := keyCount / 2;
      var newLeaf := new LeafNode(-1, maxKeys);
      // Every index moved is below keyCount <= maxKeys, so `split`'s
      // `newIndex < maxKeys` test always passes.
      MoveSlots(keys, newLeaf.keys, mid, keyCount, None);
      MoveSlots(vals, newLeaf.vals, mid, keyCount, None);
      MoveSlots(rowIds, newLeaf.rowIds, mid, keyCount, None);
      newLeaf.keyCount := keyCount - mid;
      keyCount := mid;
      assert State() == t.0;
      assert newLeaf.State() == t.1;
      r := Ok(newLeaf);
    }

    /** `setNextLeafPageId`. */
    method SetNextLeafPageId(next: int)
      modifies this`nextLeafPageId
      ensures nextLeafPageId == next
    {
      nextLeafPageId := next;
    }

    /** `setPageId`. */
    method SetPageId(id: int)
      modifies this`pageId
      ensures pageId == id
    {
      pageId := id;
    }

    /** `BPlusTreeNode.setParentPageId`: only the parent link changes. */
    method SetParentPageId(parent: int)
      modifies this`parentPageId
      ensures parentPageId == parent
    {
      parentPageId := parent;
    }

    /** `serialize(page)`: the page is cleared, then the header and the
        entries are written; `serialize` throws once an entry or a value slot
        no longer fits, leaving what it wrote so far on the page. */
    method Serialize(page: Page) returns (r: Outcome)
      requires Valid() && page.Valid()
      modifies page.data, page`dirty
      ensures page.data[..] == EncodeLeaf(State()).image && page.dirty
      ensures r.Pass? <==> EncodeLeaf(State()).ok
      ensures r.Fail? ==> r.error == PageSpaceExhausted
    {
      var s := State();
      page.Clear();
      EmitAll(page, HeaderWrites(s));
      r := WriteEntries(page, s);
    }

    /** `deserialize(page)`: the header fields, then entries while both
        `i < keyCount` and `i < maxKeys`; a value count that is not positive
        leaves the slot's value array as it was. */
    method Deserialize(page: Page)
      requires Shaped() && page.Valid()
      modifies this`keyCount, this`parentPageId, this`nextLeafPageId, keys, rowIds, vals
      ensures Shaped()
      ensures State() == DecodeLeafInto(old(State()), page.data[..])
      ensures 0 <= ReadIntAt(page.data[..], 4) <= maxKeys ==> Valid()
    {
      ghost var img := page.data[..];
      ghost var s0 := State();
      var offset := 4;
      keyCount := page.ReadInt(offset);
      offset := offset + 4;
      parentPageId := page.ReadInt(offset);
      offset := offset + 4;
      nextLeafPageId := page.ReadInt(offset);
      offset := offset + 4;
      ghost var t := s0.(keyCount := keyCount, parent := parentPageId, next := nextLeafPageId);
      ghost var n := Min(Max(keyCount, 0), maxKeys);
      assert t == s0.(keyCount := ReadIntAt(img, 4), parent := ReadIntAt(img, 8), next := ReadIntAt(img, 12));
      assert DecodeLeafInto(s0, img) == DecodeEntries(img, t, n).0;
      var i := 0;
      while i < keyCount && i < maxKeys
        invariant 0 <= i <= n && Shaped()
        invariant (State(), offset) == DecodeEntries(img, t, i)
      {
        offset := ReadEntry(page, i, offset);
        i := i + 1;
      }
      assert i == n;
      if 0 <= keyCount <= maxKeys {
        DecodeIntoWf(s0, img);
      }
    }

    /** One pass of the entry loop of `deserialize`: slot `i` read from
        `offset`, and the offset after it. */
    method ReadEntry(page: Page, i: int, offset: int) returns (next: int)
      requires Shaped() && page.Valid() && 0 <= i < maxKeys
      modifies keys, rowIds, vals
      ensures Shaped()
      ensures (State(), next) == ReadEntryAt(page.data[..], old(State()), i, offset)
    {
      ghost var r := ReadEntryAt(page.data[..], State(), i, offset);
      var key := page.ReadString(offset, 64);
      keys[i] := Some(key);
      var rowId := page.ReadString(offset + 64, 64);
      rowIds[i] := Some(rowId);
      var valueCount := page.ReadInt(offset + 128);
      next := offset + 132;
      if valueCount > 0 {
        var vs := ReadValues(page, next, valueCount);
        vals[i] := Some(vs);
        next := next + SLOT * valueCount;
      }
      assert State() == r.0 && next == r.1;
    }
  }

  /** The value loop of `deserialize`: `count` slots read from `start`. */
  method ReadValues(page: Page, start: int, count: int) returns (vs: seq<Str>)
    requires page.Valid() && count >= 0
    ensures vs == DecodeValues(page.data[..], start, count)
  {
    vs := [];
    var offset := start;
    var j := 0;
    while j < count
      invariant 0 <= j <= count && offset == start + SLOT * j
      invariant vs == DecodeValues(page.data[..], start, j)
    {
      var v := page.ReadString(offset, 64);
      vs := vs + [v];
      offset := offset + 64;
      j := j + 1;
    }
  }

  /** The entry loop of `serialize`: each entry after the check that 200
      bytes remain, each value after the check that 64 remain. */
  method WriteEntries(page: Page, s: LeafState) returns (r: Outcome)
    requires Wf(s) && page.Valid()
    requires page.data[..] == Apply(Zeros(PAGE_SIZE), HeaderWrites(s)) && page.dirty
    modifies page.data, page`dirty
    ensures page.data[..] == EncodeLeaf(s).image && page.dirty
    ensures r.Pass? <==> EncodeLeaf(s).ok
    ensures r.Fail? ==> r.error == PageSpaceExhausted
  {
    ghost var z := Zeros(PAGE_SIZE);
    var l := Layout(HeaderWrites(s), HEADER_END, true);
    var i := 0;
    while i < s.keyCount
      invariant 0 <= i <= s.keyCount && l == EncodeEntries(s, i) && l.ok
      invariant page.data[..] == Apply(z, l.writes) && page.dirty
    {
      l := WriteEntry(page, z, l, Entries(s)[i]);
      if !l.ok {
        EncodeStops(s, i + 1, s.keyCount);
        return Fail(PageSpaceExhausted);
      }
      i := i + 1;
    }
    r := Pass;
  }

  /** One entry of `serialize`: its writes, as `EntryWrites` lays them out,
      issued after those already on the page. */
  method WriteEntry(page: Page, ghost z: seq<Byte>, l: Layout, e: Entry) returns (next: Layout)
    requires page.Valid() && |z| == PAGE_SIZE && Tidy(l) && l.ok
    requires page.data[..] == Apply(z, l.writes)
    modifies page.data, page`dirty
    ensures next == EntryWrites(l, e)
    ensures page.data[..] == Apply(z, next.writes) && page.dirty == (old(page.dirty) || |next.writes| > |l.writes|)
  {
    next := EntryWrites(l, e);
    var tail := next.writes[|l.writes|..];
    PrefixRest(l.writes, next.writes);
    EmitAll(page, tail);
    ApplyConcat(z, l.writes, tail);
  }
}

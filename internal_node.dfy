/** InternalNode.java as a class: the key and child arrays and the node's
    int fields, each method proved against the function of module Internals
    (or InternalCodec) that says what it does to the node's fields. */
module InternalNodes {
  import opened Types
  import opened NodeBase
  import opened Pages
  import opened Internals
  import opened InternalCodec

  class InternalNode {
    var pageId: int
    var keyCount: int
    var parentPageId: int
    const maxKeys: int
    /** `keys`, with `maxKeys + 1` slots (see module Internals), and
        `childPageIds`, with `maxKeys + 2`. */
    const keys: array<Option<Str>>
    const children: array<int>
    /** The key the last `split` set aside for the parent. */
    var splitMiddleKey: Option<Str>

    /** The fields as a value. */
    function State(): InternalState
      reads this, keys, children
    {
      InternalState(keyCount, parentPageId, keys[..], children[..])
    }

    ghost predicate Shaped()
      reads this, keys, children
    {
      0 <= maxKeys && keys.Length == maxKeys + 1 && children.Length == maxKeys + 2
      && IsInt32(maxKeys + 2)
    }

    ghost predicate Valid()
      reads this, keys, children
    {
      Shaped() && Wf(State())
    }

    /** `new InternalNode(pageId, maxKeys)`. */
    constructor (pageId: int, maxKeys: int)
      requires 0 <= maxKeys && IsInt32(maxKeys + 2)
      ensures Valid() && State() == Fresh(maxKeys) && splitMiddleKey == None
      ensures this.pageId == pageId && this.maxKeys == maxKeys
      ensures fresh(keys) && fresh(children)
    {
      this.pageId := pageId;
      this.maxKeys := maxKeys;
      keyCount := 0;
      parentPageId := -1;
      splitMiddleKey := None;
      keys := new Option<Str>[maxKeys + 1](_ => None);
      children := new int[maxKeys + 2](_ => -1);
      new;
      assert keys[..] == NullKeys(maxKeys + 1);
    }

    /** `findChild(key)`: the scan for the first key above `key`, then the
        fallback scan for a set child. */
    method FindChild(key: Str) returns (c: int)
      requires Valid()
      ensures c == Internals.FindChild(State(), key)
    {
      if keyCount == 0 {
        return children[0];
      }
      var pos := 0;
      while pos < keyCount && keys[pos].Some? && !Less(key, keys[pos].value)
        invariant 0 <= pos <= keyCount
        invariant RoutePos(keys[..], keyCount, key, pos) == RoutePos(keys[..], keyCount, key, 0)
      {
        pos := pos + 1;
      }
      // pos <= keyCount always holds here, so `findChild`'s test of it passes.
      if children[pos] != -1 {
        return children[pos];
      }
      var i := 0;
      while i <= keyCount
        invariant 0 <= i <= keyCount + 1
        invariant FirstLive(children[..], keyCount, i) == FirstLive(children[..], keyCount, 0)
      {
        if children[i] != -1 {
          return children[i];
        }
        i := i + 1;
      }
      return -1;
    }

    /** `insertKeyChild(key, left, right)`. */
    method InsertKeyChild(key: Str, left: int, right: int) returns (r: Outcome)
      requires Valid() && IsInt32(left) && IsInt32(right)
      modifies this`keyCount, keys, children
      ensures Valid()
      ensures var t := Internals.InsertKeyChild(old(State()), key, left, right);
              && (r.Fail? <==> t.Err?)
              && (t.Err? ==> r.error == t.error && State() == old(State()))
              && (t.Ok? ==> State() == t.value)
    {
      if keyCount >= maxKeys {
        return Fail(InternalFull);
      }
      InsertAt(key, left, right);
      r := Pass;
    }

    /** `insertKeyChildForSplit(key, left, right)`, on the key array of
        `maxKeys + 1` slots. */
    method InsertKeyChildForSplit(key: Str, left: int, right: int) returns (r: Outcome)
      requires Valid() && IsInt32(left) && IsInt32(right)
      modifies this`keyCount, keys, children
      ensures Valid()
      ensures var t := Internals.InsertKeyChildForSplit(old(State()), key, left, right);
              && (r.Fail? <==> t.Err?)
              && (t.Err? ==> r.error == t.error && State() == old(State()))
              && (t.Ok? ==> State() == t.value)
    {
      if keyCount >= maxKeys + 1 {
        return Fail(OverSplitCapacity);
      }
      InsertAt(key, left, right);
      r := Pass;
    }

    /** The body both insertions share once their guard passes: the
        position scan, then the shifts and the three stores. */
    method InsertAt(key: Str, left: int, right: int)
      requires Valid() && keyCount < keys.Length && IsInt32(left) && IsInt32(right)
      modifies this`keyCount, keys, children
      ensures Valid() && State() == Internals.InsertAt(old(State()), key, left, right)
    {
      ghost var s0 := State();
      var pos := InsertPosition(key);
      ShiftInAt(pos, key, left, right);
      assert State() == Internals.InsertAt(s0, key, left, right);
    }

    /** The position scan of the insertions: past the non-null keys below `key`. */
    method InsertPosition(key: Str) returns (pos: int)
      requires Valid()
      ensures pos == InsertPos(keys[..], keyCount, key, 0)
    {
      pos := 0;
      while pos < keyCount && keys[pos].Some? && Less(keys[pos].value, key)
        invariant 0 <= pos <= keyCount
        invariant InsertPos(keys[..], keyCount, key, pos) == InsertPos(keys[..], keyCount, key, 0)
      {
        pos := pos + 1;
      }
    }

    /** The two shift loops of the insertions and the stores of the key and
        the two children. */
    method ShiftInAt(pos: int, key: Str, left: int, right: int)
      requires Shaped() && 0 <= pos <= keyCount < keys.Length
      modifies this`keyCount, keys, children
      ensures Shaped()
      ensures State() == InternalState(old(keyCount) + 1, parentPageId,
                                       ShiftIn(old(keys[..]), old(keyCount), pos, Some(key)),
                                       ShiftIn(old(children[..]), old(keyCount) + 1, pos + 1, right)[pos := left])
    {
      ghost var ks, cs := keys[..], children[..];
      ShiftSlotsRight(keys, keyCount, pos);
      keys[pos] := Some(key);
      ShiftInStore(ks, keyCount, pos, ks[pos], Some(key));
      ShiftSlotsRight(children, keyCount + 1, pos + 1);
      children[pos + 1] := right;
      ShiftInStore(cs, keyCount + 1, pos + 1, cs[pos + 1], right);
      children[pos] := left;
      keyCount := keyCount + 1;
    }

    /** `split()`: refused below three keys; otherwise the middle key is set
        aside in `splitMiddleKey`, a new node with page id -1 takes the keys
        and children after it, and this node keeps those before. */
    method Split() returns (r: Result<InternalNode>)
      requires Valid()
      modifies this`keyCount, this`splitMiddleKey, keys, children
      ensures Valid()
      ensures r.Err? <==> Internals.Split(old(State())).Err?
      ensures r.Err? ==> r.error == TooFewKeys && State() == old(State()) && splitMiddleKey == old(splitMiddleKey)
      ensures r.Ok? ==>
                && fresh(r.value) && fresh(r.value.keys) && fresh(r.value.children)
                && r.value.Valid() && r.value.pageId == -1 && r.value.maxKeys == maxKeys
                && r.value.splitMiddleKey == None
                && State() == Internals.Split(old(State())).value.0
                && r.value.State() == Internals.Split(old(State())).value.1
                && splitMiddleKey == Internals.Split(old(State())).value.2
    {
      if keyCount < 3 {
        return Err(TooFewKeys);
      }
      var mid := keyCount / 2;
      splitMiddleKey := keys[mid];
      var newInternal := new InternalNode(-1, maxKeys);
      MoveUpperHalf(newInternal);
      r := Ok(newInternal);
    }

    /** The two moving loops of `split` and the clearing of the middle key:
        `other`, a fresh node, takes the keys and children after the middle. */
    method MoveUpperHalf(other: InternalNode)
      requires Valid() && keyCount >= 3 && other.Valid() && other.State() == Fresh(maxKeys)
      requires other.keys != keys && other.children != children
      modifies this`keyCount, keys, children, other`keyCount, other.keys, other.children
      ensures Shaped() && other.Shaped()
      ensures State() == KeptHalf(old(State())) && other.State() == MovedHalf(old(State()))
    {
      var mid := keyCount / 2;
      MoveKeys(keys, other.keys, mid, keyCount);
      other.keyCount := keyCount - mid - 1;
      // The moved children fit: fewer than keyCount + 1 <= maxKeys + 2 move
      // to the front of the new node's array.
      MoveSlots(children, other.children, mid + 1, keyCount + 1, -1);
      keyCount := mid;
    }

    /** `getMiddleKey()`. */
    method GetMiddleKey() returns (r: Result<Option<Str>>)
      requires Valid()
      ensures r == Internals.GetMiddleKey(State())
    {
      if keyCount == 0 {
        return Err(NoKeys);
      }
      var midIndex := keyCount / 2;
      r := Ok(keys[midIndex]);
    }

    /** `setPageId`. */
    method SetPageId(id: int)
      modifies this`pageId
      ensures pageId == id
    {
      pageId := id;
    }

    /** `BPlusTreeNode.setParentPageId`: only the parent link changes. */
    method SetParentPageId(parent: int)
      modifies this`parentPageId
      ensures parentPageId == parent
    {
      parentPageId := parent;
    }

    /** `serialize(page)`: the page is cleared, then the header, every key
        slot and every child slot are written in order; the first write
        `Page` rejects throws and ends it. The two loops of `serialize` issue
        the runs `KeyWrites` and `ChildWrites` lay out. */
    method Serialize(page: Page) returns (r: Outcome)
      requires Valid() && page.Valid()
      modifies page.data, page`dirty
      ensures page.data[..] == EncodeInternal(State()).image && page.dirty
      ensures r.Pass? <==> EncodeInternal(State()).ok
      ensures r.Fail? ==> r.error == OutOfBounds
    {
      var s := State();
      page.Clear();
      EmitAll(page, HeaderWrites(s));
      r := IssueRun(page, KeyWrites(s));
      if r.Pass? {
        r := IssueRun(page, ChildWrites(s));
      }
    }

    /** `deserialize(page)`: the key count and parent, then every key slot
        and every child slot up to `maxKeys`. */
    method Deserialize(page: Page)
      requires Valid() && page.Valid()
      modifies this`keyCount, this`parentPageId, keys, children
      ensures Shaped()
      ensures State() == DecodeInternalInto(old(State()), page.data[..])
      ensures 0 <= ReadIntAt(page.data[..], 4) <= maxKeys + 1 ==> Valid()
    {
      ghost var s0 := State();
      keyCount := page.ReadInt(4);
      parentPageId := page.ReadInt(8);
      ReadKeys(page);
      ReadChildren(page);
      assert keys[..] == DecodeInternalInto(s0, page.data[..]).keys;
      assert children[..] == DecodeInternalInto(s0, page.data[..]).children;
      if 0 <= keyCount <= maxKeys + 1 {
        DecodeWf(s0, page.data[..]);
      }
    }

    /** The key loop of `deserialize`. */
    method ReadKeys(page: Page)
      requires Shaped() && page.Valid()
      modifies keys
      ensures forall j :: 0 <= j < maxKeys ==> keys[j] == DecodedKey(page.data[..], keyCount, j)
      ensures keys[maxKeys] == old(keys[maxKeys])
    {
      ghost var img := page.data[..];
      ghost var kc := keyCount;
      var offset := KEYS_START;
      var i := 0;
      while i < maxKeys
        invariant 0 <= i <= maxKeys && offset == KeyAt(i)
        invariant forall j :: 0 <= j < i ==> keys[j] == DecodedKey(img, kc, j)
        invariant keys[maxKeys] == old(keys[maxKeys])
      {
        var key := page.ReadString(offset, KEY_SLOT);
        var slot := if i < keyCount && key != [] then Some(key) else None;
        assert slot == DecodedKey(img, kc, i);
        keys[i] := slot;
        offset := offset + KEY_SLOT;
        i := i + 1;
      }
    }

    /** The child loop of `deserialize`. */
    method ReadChildren(page: Page)
      requires Shaped() && page.Valid()
      modifies children
      ensures forall j :: 0 <= j <= maxKeys ==> children[j] == ReadIntAt(page.data[..], ChildAt(maxKeys, j))
      ensures children[maxKeys + 1] == old(children[maxKeys + 1])
    {
      ghost var img := page.data[..];
      var offset := ChildAt(maxKeys, 0);
      var i := 0;
      while i <= maxKeys
        invariant 0 <= i <= maxKeys + 1 && offset == ChildAt(maxKeys, i)
        invariant forall j :: 0 <= j < i ==> children[j] == ReadIntAt(img, ChildAt(maxKeys, j))
        invariant children[maxKeys + 1] == old(children[maxKeys + 1])
      {
        children[i] := page.ReadInt(offset);
        offset := offset + 4;
        i := i + 1;
      }
    }
  }

  /** The key loop of `split` and the clearing of the middle key: the keys
      after slot `mid` move to the front of `dst`, and slots `mid` to `n`
      of `src` are cleared. */
  method MoveKeys(src: array<Option<Str>>, dst: array<Option<Str>>, mid: int, n: int)
    requires 0 <= mid < n <= src.Length && n - mid - 1 <= dst.Length && src != dst
    requires forall j :: 0 <= j < dst.Length ==> dst[j] == None
    modifies src, dst
    ensures src[..] == Blank(old(src[..]), mid, n, None)
    ensures dst[..] == MovedOut(old(src[..]), mid + 1, n, dst.Length, None)
  {
    ghost var ks := src[..];
    MoveSlots(src, dst, mid + 1, n, None);
    src[mid] := None;
    BlankWiden(ks, mid + 1, n, None);
  }
}

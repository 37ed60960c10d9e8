/** LeafNode.java as values: the node's fields, and each operation as a
    function from the old fields to the new ones. The class in
    leaf_node.dfy implements these with Java's arrays and loops. */
module Leaves {
  import opened Types
  import opened NodeBase

  /** A leaf's fields: `keyCount`, `parentPageId`, `nextLeafPageId` and the
      parallel arrays `keys`, `rowIds` and `values`, whose common length is
      the node's `maxKeys`. A `values` slot holds a Java `String[]` or null. */
  datatype LeafState = LeafState(keyCount: int, parent: int, next: int,
                                 keys: seq<Option<Str>>, rowIds: seq<Option<Str>>,
                                 vals: seq<Option<seq<Str>>>)

  /** One stored entry: a key, its row id and its value array. */
  datatype Entry = Entry(key: Str, rowId: Str, value: Option<seq<Str>>)

  /** The shape every leaf keeps: parallel arrays, a key count within them,
      non-null keys and row ids below it, and Java `int` fields. */
  predicate Wf(s: LeafState) {
    && |s.rowIds| == |s.keys| && |s.vals| == |s.keys| && IsInt32(|s.keys|)
    && NonNull(s.keys, s.keyCount) && NonNull(s.rowIds, s.keyCount)
    && IsInt32(s.parent) && IsInt32(s.next)
  }

  /** A well-formed leaf whose keys are strictly increasing. */
  predicate Ordered(s: LeafState) {
    Wf(s) && Sorted(s.keys, s.keyCount)
  }

  /** The order every leaf page of the engine keeps: no key lies below an
      earlier one, and only the first key may be empty. Cutting keys to
      their 60-byte slots may make neighbours equal, so this is weaker than
      `Ordered`. */
  predicate Ranked(s: LeafState) {
    && Wf(s) && NonDecreasing(s.keys, s.keyCount)
    && forall i :: 1 <= i < s.keyCount ==> s.keys[i].value != []
  }

  /** `new LeafNode(pageId, maxKeys)`: empty, no parent, no next leaf. */
  function Fresh(maxKeys: nat): (s: LeafState)
    requires IsInt32(maxKeys)
    ensures Ordered(s) && s.keyCount == 0 && |s.keys| == maxKeys
  {
    LeafState(0, -1, -1, NullKeys(maxKeys), NullKeys(maxKeys), seq(maxKeys, _ => None))
  }

  /** The entries below `keyCount`, in slot order. */
  function Entries(s: LeafState): (es: seq<Entry>)
    requires Wf(s)
    ensures |es| == s.keyCount
    ensures forall i :: 0 <= i < s.keyCount ==>
              es[i] == Entry(s.keys[i].value, s.rowIds[i].value, s.vals[i])
  {
    seq(s.keyCount, i requires 0 <= i < s.keyCount => Entry(s.keys[i].value, s.rowIds[i].value, s.vals[i]))
  }

  /** `isFull`. */
  predicate IsFull(s: LeafState) {
    s.keyCount >= |s.keys|
  }

  /** `isUnderflow`: fewer than half of `maxKeys` keys (Java's truncating
      division, on non-negative operands). */
  predicate IsUnderflow(s: LeafState) {
    s.keyCount < |s.keys| / 2
  }

  // ---------------------------------------------------------------------
  // binarySearch
  // ---------------------------------------------------------------------

  /** The leaf's `binarySearch` on the window [left, right]: a null key
      narrows the window to its left half. */
  function SearchWindow(keys: seq<Option<Str>>, key: Str, left: int, right: int): (r: int)
    requires 0 <= left && right < |keys|
    ensures left <= r <= Max(left, right + 1)
    decreases right - left
  {
    if left > right then left
    else
      var mid := (left + right) / 2;
      if keys[mid].None? then SearchWindow(keys, key, left, mid - 1)
      else if keys[mid].value == key then mid
      else if Less(keys[mid].value, key) then SearchWindow(keys, key, mid + 1, right)
      else SearchWindow(keys, key, left, mid - 1)
  }

  /** `binarySearch(key)` on a leaf: an index in [0, keyCount]. */
  function SearchPos(s: LeafState, key: Str): (r: int)
    requires Wf(s)
    ensures 0 <= r <= s.keyCount
  {
    SearchWindow(s.keys, key, 0, s.keyCount - 1)
  }

  /** On a window of sorted keys whose outside already lies on the right side
      of `key`, the search lands on `CountLess`. */
  lemma {:induction false} SearchWindowCounts(keys: seq<Option<Str>>, n: int, key: Str, left: int, right: int)
    requires NonNull(keys, n) && Sorted(keys, n)
    requires 0 <= left <= right + 1 <= n
    requires forall i :: 0 <= i < left ==> Less(keys[i].value, key)
    requires forall i :: right < i < n ==> Less(key, keys[i].value)
    ensures SearchWindow(keys, key, left, right) == CountLess(keys, n, key)
    decreases right - left, 1
  {
    if left > right {
      WindowClosed(keys, n, key, left);
    } else {
      var mid := (left + right) / 2;
      assert keys[mid].Some?;
      if keys[mid].value == key {
        ProbeHit(keys, n, key, mid);
      } else if Less(keys[mid].value, key) {
        SearchWindowCountsUp(keys, n, key, left, right);
      } else {
        SearchWindowCountsDown(keys, n, key, left, right);
      }
    }
  }

  /** The step of `SearchWindowCounts` past a middle key below `key`. */
  lemma {:induction false} SearchWindowCountsUp(keys: seq<Option<Str>>, n: int, key: Str, left: int, right: int)
    requires NonNull(keys, n) && Sorted(keys, n)
    requires 0 <= left <= right < n && keys[(left + right) / 2].value != key
    requires Less(keys[(left + right) / 2].value, key)
    requires forall i :: 0 <= i < left ==> Less(keys[i].value, key)
    requires forall i :: right < i < n ==> Less(key, keys[i].value)
    ensures SearchWindow(keys, key, left, right) == CountLess(keys, n, key)
    decreases right - left, 0
  {
    var mid := (left + right) / 2;
    WindowStep(keys, key, left, right);
    ProbeBelow(keys, n, key, mid);
    SearchWindowCounts(keys, n, key, mid + 1, right);
  }

  /** The step of `SearchWindowCounts` past a middle key above `key`. */
  lemma {:induction false} SearchWindowCountsDown(keys: seq<Option<Str>>, n: int, key: Str, left: int, right: int)
    requires NonNull(keys, n) && Sorted(keys, n)
    requires 0 <= left <= right < n && keys[(left + right) / 2].value != key
    requires !Less(keys[(left + right) / 2].value, key)
    requires forall i :: 0 <= i < left ==> Less(keys[i].value, key)
    requires forall i :: right < i < n ==> Less(key, keys[i].value)
    ensures SearchWindow(keys, key, left, right) == CountLess(keys, n, key)
    decreases right - left, 0
  {
    var mid := (left + right) / 2;
    WindowStep(keys, key, left, right);
    ProbeAbove(keys, n, key, mid);
    SearchWindowCounts(keys, n, key, left, mid - 1);
  }

  /** On an ordered leaf, `binarySearch` returns the number of smaller keys,
      which is the key's own index when it is present. */
  lemma SearchPosIsCountLess(s: LeafState, key: Str)
    requires Ordered(s)
    ensures SearchPos(s, key) == CountLess(s.keys, s.keyCount, key)
  {
    SearchWindowCounts(s.keys, s.keyCount, key, 0, s.keyCount - 1);
  }

  /** Index `r` splits the first `n` keys: those before it lie below
      `key`, those from it on above `key`. */
  predicate SplitsAt(keys: seq<Option<Str>>, n: int, key: Str, r: int)
    requires NonNull(keys, n)
  {
    && (forall i :: 0 <= i < r && i < n ==> Less(keys[i].value, key))
    && (forall i :: 0 <= r <= i < n ==> Less(key, keys[i].value))
  }

  /** Index `r` holds `key`, or splits the keys around it. */
  predicate LandsAt(keys: seq<Option<Str>>, n: int, key: Str, r: int)
    requires NonNull(keys, n)
  {
    (0 <= r < n && keys[r] == Some(key)) || SplitsAt(keys, n, key, r)
  }

  /** On a window of keys that never decrease, whose outside already lies
      on the right side of `key`, the search either lands on `key` or on
      the point that splits the keys below `key` from those above it. */
  lemma {:induction false} SearchWindowLands(keys: seq<Option<Str>>, n: int, key: Str, left: int, right: int)
    requires NonNull(keys, n) && NonDecreasing(keys, n)
    requires 0 <= left <= right + 1 <= n
    requires forall i :: 0 <= i < left ==> Less(keys[i].value, key)
    requires forall i :: right < i < n ==> Less(key, keys[i].value)
    ensures LandsAt(keys, n, key, SearchWindow(keys, key, left, right))
    decreases right - left, 1
  {
    if left > right {
      assert SearchWindow(keys, key, left, right) == left;
      assert SplitsAt(keys, n, key, left);
      assert LandsAt(keys, n, key, left);
    } else {
      var mid := (left + right) / 2;
      assert keys[mid].Some?;
      if keys[mid].value == key {
        assert SearchWindow(keys, key, left, right) == mid;
      } else {
        if Less(keys[mid].value, key) {
          SearchWindowUp(keys, n, key, left, right);
        } else {
          SearchWindowDown(keys, n, key, left, right);
        }
      }
    }
  }

  /** The step of `SearchWindowLands` past a middle key below `key`. */
  lemma {:induction false} SearchWindowUp(keys: seq<Option<Str>>, n: int, key: Str, left: int, right: int)
    requires NonNull(keys, n) && NonDecreasing(keys, n)
    requires 0 <= left <= right < n && keys[(left + right) / 2].value != key
    requires Less(keys[(left + right) / 2].value, key)
    requires forall i :: 0 <= i < left ==> Less(keys[i].value, key)
    requires forall i :: right < i < n ==> Less(key, keys[i].value)
    ensures LandsAt(keys, n, key, SearchWindow(keys, key, left, right))
    decreases right - left, 0
  {
    var mid := (left + right) / 2;
    WindowStep(keys, key, left, right);
    AllBelow(keys, n, key, mid);
    SearchWindowLands(keys, n, key, mid + 1, right);
  }

  /** The step of `SearchWindowLands` past a middle key above `key`. */
  lemma {:induction false} SearchWindowDown(keys: seq<Option<Str>>, n: int, key: Str, left: int, right: int)
    requires NonNull(keys, n) && NonDecreasing(keys, n)
    requires 0 <= left <= right < n && keys[(left + right) / 2].value != key
    requires !Less(keys[(left + right) / 2].value, key)
    requires forall i :: 0 <= i < left ==> Less(keys[i].value, key)
    requires forall i :: right < i < n ==> Less(key, keys[i].value)
    ensures LandsAt(keys, n, key, SearchWindow(keys, key, left, right))
    decreases right - left, 0
  {
    var mid := (left + right) / 2;
    WindowStep(keys, key, left, right);
    AllAbove(keys, n, key, mid);
    SearchWindowLands(keys, n, key, left, mid - 1);
  }

  /** One probe of the search on a window whose middle key is not null
      and differs from `key`: the search goes on in the half that can
      still hold `key`. */
  lemma WindowStep(keys: seq<Option<Str>>, key: Str, left: int, right: int)
    requires 0 <= left <= right < |keys|
    requires keys[(left + right) / 2].Some? && keys[(left + right) / 2].value != key
    ensures var mid := (left + right) / 2;
            SearchWindow(keys, key, left, right)
              == if Less(keys[mid].value, key) then SearchWindow(keys, key, mid + 1, right)
                 else SearchWindow(keys, key, left, mid - 1)
  {
  }

  /** Keys that never decrease: below a key less than `key`, every key is. */
  lemma AllBelow(keys: seq<Option<Str>>, n: int, key: Str, mid: int)
    requires NonNull(keys, n) && NonDecreasing(keys, n) && 0 <= mid < n
    requires Less(keys[mid].value, key)
    ensures forall i :: 0 <= i <= mid ==> Less(keys[i].value, key)
  {
    forall i | 0 <= i < mid
      ensures Less(keys[i].value, key)
    {
      LessAfterLe(keys[i].value, keys[mid].value, key);
    }
  }

  /** Keys that never decrease: from a key above `key` on, every key is. */
  lemma AllAbove(keys: seq<Option<Str>>, n: int, key: Str, mid: int)
    requires NonNull(keys, n) && NonDecreasing(keys, n) && 0 <= mid < n
    requires keys[mid].value != key && !Less(keys[mid].value, key)
    ensures forall i :: mid <= i < n ==> Less(key, keys[i].value)
  {
    var k := keys[mid].value;
    LessTotal(k, key);
    forall i | mid < i < n
      ensures Less(key, keys[i].value)
    {
      LessBeforeLe(key, k, keys[i].value);
    }
  }

  /** The slot `binarySearch` lands on holds `key`. */
  predicate FoundAt(s: LeafState, key: Str, pos: int)
    requires Wf(s)
  {
    0 <= pos < s.keyCount && s.keys[pos] == Some(key)
  }

  // ---------------------------------------------------------------------
  // The operations
  // ---------------------------------------------------------------------

  /** `insertKeyValue(key, value, rowId)`: refused on a full leaf (even when
      the key is already there); an existing key gets the new value and row
      id; otherwise the entry is shifted in at the search position. */
  function Insert(s: LeafState, key: Str, value: Option<seq<Str>>, rowId: Str): (r: Result<LeafState>)
    requires Wf(s)
    ensures r.Err? <==> IsFull(s)
    ensures r.Err? ==> r.error == LeafFull
    ensures r.Ok? ==> Wf(r.value) && r.value.parent == s.parent && r.value.next == s.next
                      && |r.value.keys| == |s.keys|
                      && s.keyCount <= r.value.keyCount <= s.keyCount + 1
  {
    if s.keyCount >= |s.keys| then Err(LeafFull)
    else
      var pos := SearchPos(s, key);
      if FoundAt(s, key, pos) then
        Ok(s.(rowIds := s.rowIds[pos := Some(rowId)], vals := s.vals[pos := value]))
      else
        Ok(LeafState(s.keyCount + 1, s.parent, s.next,
                     ShiftIn(s.keys, s.keyCount, pos, Some(key)),
                     ShiftIn(s.rowIds, s.keyCount, pos, Some(rowId)),
                     ShiftIn(s.vals, s.keyCount, pos, value)))
  }

  /** `search(key)`: a one-element array holding the key's value array, or
      an empty array. */
  function Search(s: LeafState, key: Str): (r: seq<Option<seq<Str>>>)
    requires Wf(s)
    ensures |r| <= 1
  {
    var pos := SearchPos(s, key);
    if FoundAt(s, key, pos) then [s.vals[pos]] else []
  }

  /** `removeKey(key)`: the new fields and whether the key was removed. */
  function Remove(s: LeafState, key: Str): (r: (LeafState, bool))
    requires Wf(s)
    ensures Wf(r.0) && r.0.parent == s.parent && r.0.next == s.next && |r.0.keys| == |s.keys|
    ensures r.1 ==> r.0.keyCount == s.keyCount - 1
    ensures !r.1 ==> r.0 == s
  {
    var pos := SearchPos(s, key);
    if FoundAt(s, key, pos) then
      (LeafState(s.keyCount - 1, s.parent, s.next,
                 ShiftOut(s.keys, s.keyCount, pos, None),
                 ShiftOut(s.rowIds, s.keyCount, pos, None),
                 ShiftOut(s.vals, s.keyCount, pos, None)), true)
    else (s, false)
  }

  /** `split()`: refused below two keys; otherwise the upper half of the
      entries (from `keyCount / 2`) moves to a new leaf with page id -1, no
      parent and no next leaf, and this leaf keeps the lower half. The
      result is (this leaf, the new leaf). */
  function Split(s: LeafState): (r: Result<(LeafState, LeafState)>)
    requires Wf(s)
    ensures r.Err? <==> s.keyCount < 2
    ensures r.Err? ==> r.error == TooFewKeys
    ensures r.Ok? ==> Wf(r.value.0) && Wf(r.value.1)
    ensures r.Ok? ==> r.value.0.keyCount == s.keyCount / 2
                      && r.value.1.keyCount == s.keyCount - s.keyCount / 2
  {
    if s.keyCount < 2 then Err(TooFewKeys)
    else
      var kc, mid, m := s.keyCount, s.keyCount / 2, |s.keys|;
      var left := s.(keyCount := mid,
                     keys := Blank(s.keys, mid, kc, None),
                     rowIds := Blank(s.rowIds, mid, kc, None),
                     vals := Blank(s.vals, mid, kc, None));
      var right := LeafState(kc - mid, -1, -1,
                             MovedOut(s.keys, mid, kc, m, None),
                             MovedOut(s.rowIds, mid, kc, m, None),
                             MovedOut(s.vals, mid, kc, m, None));
      Ok((left, right))
  }

  // ---------------------------------------------------------------------
  // What the operations mean on an ordered leaf
  // ---------------------------------------------------------------------

  /** On an ordered leaf `search` finds exactly the stored keys: the value
      array of the entry holding the key, or nothing when no entry holds it. */
  lemma SearchFinds(s: LeafState, key: Str)
    requires Ordered(s)
    ensures forall i :: 0 <= i < s.keyCount && s.keys[i] == Some(key) ==> Search(s, key) == [s.vals[i]]
    ensures !Present(s.keys, s.keyCount, key) ==> Search(s, key) == []
  {
    SearchPosIsCountLess(s, key);
    PresentAtCountLess(s.keys, s.keyCount, key);
    var c := CountLess(s.keys, s.keyCount, key);
    forall i | 0 <= i < s.keyCount && s.keys[i] == Some(key)
      ensures i == c
    {
      SortedDistinct(s.keys, s.keyCount, i, c);
    }
  }

  /** Inserting a key an ordered leaf already holds replaces that one entry. */
  lemma InsertExisting(s: LeafState, key: Str, value: Option<seq<Str>>, rowId: Str, p: int)
    requires Ordered(s) && !IsFull(s) && 0 <= p < s.keyCount && s.keys[p] == Some(key)
    ensures var r := Insert(s, key, value, rowId).value;
            Ordered(r) && Entries(r) == Entries(s)[p := Entry(key, rowId, value)]
  {
    SearchPosIsCountLess(s, key);
    ProbeHit(s.keys, s.keyCount, key, p);
  }

  /** Shifting an entry into the three arrays at `p` shifts it into the entries. */
  lemma EntriesShiftIn(s: LeafState, r: LeafState, p: int, e: Entry)
    requires Wf(s) && Wf(r) && 0 <= p <= s.keyCount < |s.keys| && r.keyCount == s.keyCount + 1
    requires r.keys == ShiftIn(s.keys, s.keyCount, p, Some(e.key))
    requires r.rowIds == ShiftIn(s.rowIds, s.keyCount, p, Some(e.rowId))
    requires r.vals == ShiftIn(s.vals, s.keyCount, p, e.value)
    ensures Entries(r) == Entries(s)[..p] + [e] + Entries(s)[p..]
  {
    var a := Entries(s)[..p] + [e] + Entries(s)[p..];
    forall i | 0 <= i < r.keyCount
      ensures Entries(r)[i] == a[i]
    {
      if i < p {
        assert a[i] == Entries(s)[i];
      } else if i > p {
        assert a[i] == Entries(s)[i - 1];
      }
    }
  }

  /** Inserting a new key into an ordered leaf with room shifts it in at its
      rank among the stored keys, keeping the leaf ordered. */
  lemma InsertNew(s: LeafState, key: Str, value: Option<seq<Str>>, rowId: Str)
    requires Ordered(s) && !IsFull(s) && !Present(s.keys, s.keyCount, key)
    ensures var r := Insert(s, key, value, rowId).value;
            var p := CountLess(s.keys, s.keyCount, key);
            && Ordered(r)
            && Entries(r) == Entries(s)[..p] + [Entry(key, rowId, value)] + Entries(s)[p..]
  {
    var r := Insert(s, key, value, rowId).value;
    var p := CountLess(s.keys, s.keyCount, key);
    SearchPosIsCountLess(s, key);
    PresentAtCountLess(s.keys, s.keyCount, key);
    CountLessSplits(s.keys, s.keyCount, key);
    forall i | p <= i < s.keyCount
      ensures Less(key, s.keys[i].value)
    {
      LessTotal(key, s.keys[i].value);
      assert s.keys[i].value != key;
    }
    forall i, j | 0 <= i < j < r.keyCount
      ensures Less(r.keys[i].value, r.keys[j].value)
    {
      if i < p && j > p {
        LessTransitive(r.keys[i].value, key, r.keys[j].value);
      }
    }
    EntriesShiftIn(s, r, p, Entry(key, rowId, value));
  }

  /** After an insert into an ordered leaf with room, `search` finds the new
      value under the key. */
  lemma SearchAfterInsert(s: LeafState, key: Str, value: Option<seq<Str>>, rowId: Str)
    requires Ordered(s) && !IsFull(s)
    ensures Search(Insert(s, key, value, rowId).value, key) == [value]
  {
    var r := Insert(s, key, value, rowId).value;
    InsertedAtRank(s, key, value, rowId);
    SearchFinds(r, key);
  }

  /** After an insert into an ordered leaf with room, the entry sits at the
      key's rank and the leaf stays ordered. */
  lemma InsertedAtRank(s: LeafState, key: Str, value: Option<seq<Str>>, rowId: Str)
    requires Ordered(s) && !IsFull(s)
    ensures var r := Insert(s, key, value, rowId).value;
            var p := CountLess(s.keys, s.keyCount, key);
            && Ordered(r) && p < r.keyCount && r.keys[p] == Some(key) && r.vals[p] == value
  {
    var r := Insert(s, key, value, rowId).value;
    var p := CountLess(s.keys, s.keyCount, key);
    PresentAtCountLess(s.keys, s.keyCount, key);
    if Present(s.keys, s.keyCount, key) {
      InsertExisting(s, key, value, rowId, p);
      assert Entries(r)[p] == Entry(key, rowId, value);
    } else {
      InsertNew(s, key, value, rowId);
      assert Entries(r)[p] == Entry(key, rowId, value);
    }
  }

  /** The value arrays of the entries holding `key`, in order: a linear
      reference for what `search` should find. */
  function Lookup(es: seq<Entry>, key: Str): (r: seq<Option<seq<Str>>>)
    ensures |r| <= |es|
  {
    if |es| == 0 then []
    else (if es[0].key == key then [es[0].value] else []) + Lookup(es[1..], key)
  }

  lemma {:induction false} LookupAppend(a: seq<Entry>, b: seq<Entry>, key: Str)
    ensures Lookup(a + b, key) == Lookup(a, key) + Lookup(b, key)
  {
    if |a| == 0 {
      assert a + b == b;
    } else {
      var head := if a[0].key == key then [a[0].value] else [];
      assert (a + b)[0] == a[0];
      assert (a + b)[1..] == a[1..] + b;
      assert Lookup(a + b, key) == head + Lookup(a[1..] + b, key);
      LookupAppend(a[1..], b, key);
      assert Lookup(a, key) == head + Lookup(a[1..], key);
    }
  }

  lemma {:induction false} LookupNone(es: seq<Entry>, key: Str)
    requires forall i :: 0 <= i < |es| ==> es[i].key != key
    ensures Lookup(es, key) == []
  {
    if |es| > 0 {
      LookupNone(es[1..], key);
    }
  }

  /** When exactly one entry holds `key`, the scan finds its value alone. */
  lemma LookupOne(es: seq<Entry>, key: Str, i: int)
    requires 0 <= i < |es| && es[i].key == key
    requires forall j :: 0 <= j < |es| && j != i ==> es[j].key != key
    ensures Lookup(es, key) == [es[i].value]
  {
    assert es == es[..i] + [es[i]] + es[i + 1..];
    LookupAppend(es[..i] + [es[i]], es[i + 1..], key);
    LookupAppend(es[..i], [es[i]], key);
    LookupNone(es[..i], key);
    LookupNone(es[i + 1..], key);
  }

  /** Replacing an entry whose key differs from `key` by another such entry
      does not change what the scan finds. */
  lemma LookupReplace(es: seq<Entry>, p: int, e: Entry, key: Str)
    requires 0 <= p < |es| && es[p].key != key && e.key != key
    ensures Lookup(es[p := e], key) == Lookup(es, key)
  {
    assert es == es[..p] + [es[p]] + es[p + 1..];
    assert es[p := e] == es[..p] + [e] + es[p + 1..];
    LookupAppend(es[..p] + [es[p]], es[p + 1..], key);
    LookupAppend(es[..p], [es[p]], key);
    LookupAppend(es[..p] + [e], es[p + 1..], key);
    LookupAppend(es[..p], [e], key);
  }

  /** Inserting an entry whose key differs from `key` does not change what
      the scan finds. */
  lemma LookupInsert(es: seq<Entry>, p: int, e: Entry, key: Str)
    requires 0 <= p <= |es| && e.key != key
    ensures Lookup(es[..p] + [e] + es[p..], key) == Lookup(es, key)
  {
    assert es == es[..p] + es[p..];
    LookupAppend(es[..p], es[p..], key);
    LookupAppend(es[..p] + [e], es[p..], key);
    LookupAppend(es[..p], [e], key);
  }

  /** The keys of an ordered leaf's entries are distinct. */
  lemma EntryKeysDistinct(s: LeafState, i: int, j: int)
    requires Ordered(s) && 0 <= i < s.keyCount && 0 <= j < s.keyCount && i != j
    ensures Entries(s)[i].key != Entries(s)[j].key
  {
    if s.keys[i] == s.keys[j] {
      SortedDistinct(s.keys, s.keyCount, i, j);
    }
  }

  /** On an ordered leaf, `search`'s binary search finds exactly what a
      linear scan of the entries finds. */
  lemma SearchIsLookup(s: LeafState, key: Str)
    requires Ordered(s)
    ensures Search(s, key) == Lookup(Entries(s), key)
  {
    var es := Entries(s);
    SearchFinds(s, key);
    if Present(s.keys, s.keyCount, key) {
      var i :| 0 <= i < s.keyCount && s.keys[i] == Some(key);
      forall j | 0 <= j < |es| && j != i
        ensures es[j].key != key
      {
        EntryKeysDistinct(s, i, j);
      }
      LookupOne(es, key, i);
    } else {
      LookupNone(es, key);
    }
  }

  /** An insert leaves what `search` finds under every other key unchanged. */
  lemma SearchOtherAfterInsert(s: LeafState, key: Str, value: Option<seq<Str>>, rowId: Str, other: Str)
    requires Ordered(s) && !IsFull(s) && other != key
    ensures Search(Insert(s, key, value, rowId).value, other) == Search(s, other)
  {
    var r := Insert(s, key, value, rowId).value;
    var p := CountLess(s.keys, s.keyCount, key);
    PresentAtCountLess(s.keys, s.keyCount, key);
    if Present(s.keys, s.keyCount, key) {
      InsertExisting(s, key, value, rowId, p);
      LookupReplace(Entries(s), p, Entry(key, rowId, value), other);
    } else {
      InsertNew(s, key, value, rowId);
      LookupInsert(Entries(s), p, Entry(key, rowId, value), other);
    }
    SearchIsLookup(s, other);
    SearchIsLookup(r, other);
  }

  /** Shifting slot `p` out of the three arrays drops entry `p`. */
  lemma EntriesShiftOut(s: LeafState, r: LeafState, p: int)
    requires Wf(s) && Wf(r) && 0 <= p < s.keyCount && r.keyCount == s.keyCount - 1
    requires r.keys == ShiftOut(s.keys, s.keyCount, p, None)
    requires r.rowIds == ShiftOut(s.rowIds, s.keyCount, p, None)
    requires r.vals == ShiftOut(s.vals, s.keyCount, p, None)
    ensures Entries(r) == Entries(s)[..p] + Entries(s)[p + 1..]
  {
    var a := Entries(s)[..p] + Entries(s)[p + 1..];
    forall i | 0 <= i < r.keyCount
      ensures Entries(r)[i] == a[i]
    {
      if i < p {
        assert a[i] == Entries(s)[i];
      } else {
        assert a[i] == Entries(s)[i + 1];
      }
    }
  }

  /** Removing from an ordered leaf succeeds exactly when the key is stored;
      it then drops that one entry and keeps the leaf ordered. */
  lemma RemoveEntries(s: LeafState, key: Str)
    requires Ordered(s)
    ensures var (r, removed) := Remove(s, key);
            var p := CountLess(s.keys, s.keyCount, key);
            && (removed <==> Present(s.keys, s.keyCount, key))
            && Ordered(r)
            && (removed ==> p < s.keyCount && Entries(r) == Entries(s)[..p] + Entries(s)[p + 1..])
  {
    var (r, removed) := Remove(s, key);
    var p := CountLess(s.keys, s.keyCount, key);
    SearchPosIsCountLess(s, key);
    PresentAtCountLess(s.keys, s.keyCount, key);
    if removed {
      forall i, j | 0 <= i < j < r.keyCount
        ensures Less(r.keys[i].value, r.keys[j].value)
      {
        var i', j' := if i < p then i else i + 1, if j < p then j else j + 1;
        assert r.keys[i] == s.keys[i'] && r.keys[j] == s.keys[j'];
      }
      EntriesShiftOut(s, r, p);
    }
  }

  /** After a remove from an ordered leaf, `search` no longer finds the key. */
  lemma SearchAfterRemove(s: LeafState, key: Str)
    requires Ordered(s)
    ensures Search(Remove(s, key).0, key) == []
  {
    var r := Remove(s, key).0;
    RemoveEntries(s, key);
    SearchIsLookup(r, key);
    if Remove(s, key).1 {
      var p := CountLess(s.keys, s.keyCount, key);
      PresentAtCountLess(s.keys, s.keyCount, key);
      DroppedOnlyCopy(s, p, Entries(r));
      LookupNone(Entries(r), key);
    } else {
      SearchIsLookup(s, key);
      LookupNone(Entries(s), key);
    }
  }

  /** Dropping entry `p` of an ordered leaf drops the only entry under its key. */
  lemma DroppedOnlyCopy(s: LeafState, p: int, rest: seq<Entry>)
    requires Ordered(s) && 0 <= p < s.keyCount && rest == Entries(s)[..p] + Entries(s)[p + 1..]
    ensures forall j :: 0 <= j < |rest| ==> rest[j].key != Entries(s)[p].key
  {
    var es := Entries(s);
    forall j | 0 <= j < |rest|
      ensures rest[j].key != es[p].key
    {
      var i := if j < p then j else j + 1;
      assert rest[j] == es[i];
      EntryKeysDistinct(s, i, p);
    }
  }

  /** Dropping an entry under another key does not change a lookup. */
  lemma LookupDrop(es: seq<Entry>, p: int, key: Str)
    requires 0 <= p < |es| && es[p].key != key
    ensures Lookup(es[..p] + es[p + 1..], key) == Lookup(es, key)
  {
    var rest := es[..p] + es[p + 1..];
    assert rest[..p] == es[..p] && rest[p..] == es[p + 1..];
    assert es[..p] + [es[p]] + es[p + 1..] == es;
    LookupInsert(rest, p, es[p], key);
  }

  /** A remove from an ordered leaf leaves what `search` finds under every
      other key unchanged. */
  lemma SearchOtherAfterRemove(s: LeafState, key: Str, other: Str)
    requires Ordered(s) && other != key
    ensures Search(Remove(s, key).0, other) == Search(s, other)
  {
    var (r, removed) := Remove(s, key);
    RemoveEntries(s, key);
    SearchIsLookup(r, other);
    SearchIsLookup(s, other);
    if removed {
      var es, p := Entries(s), CountLess(s.keys, s.keyCount, key);
      PresentAtCountLess(s.keys, s.keyCount, key);
      LookupDrop(es, p, other);
    }
  }

  /** Splitting an ordered leaf of at least two keys gives two ordered
      leaves whose entries, left then right, are the original ones, every
      key on the left below every key on the right; the left keeps the
      parent and next-leaf link. */
  lemma SplitEntries(s: LeafState)
    requires Ordered(s) && s.keyCount >= 2
    ensures var (left, right) := Split(s).value;
            && Ordered(left) && Ordered(right)
            && Entries(left) + Entries(right) == Entries(s)
            && left.parent == s.parent && left.next == s.next
            && right.parent == -1 && right.next == -1
            && |left.keys| == |right.keys| == |s.keys|
            && (forall i, j :: 0 <= i < left.keyCount && 0 <= j < right.keyCount ==>
                  Less(left.keys[i].value, right.keys[j].value))
  {
    var (left, right) := Split(s).value;
    var mid := s.keyCount / 2;
    assert Entries(left) == Entries(s)[..mid];
    assert Entries(right) == Entries(s)[mid..];
    forall i, j | 0 <= i < left.keyCount && 0 <= j < right.keyCount
      ensures Less(left.keys[i].value, right.keys[j].value)
    {
      assert left.keys[i] == s.keys[i] && right.keys[j] == s.keys[mid + j];
    }
  }

  // ---------------------------------------------------------------------
  // The order every leaf page keeps
  // ---------------------------------------------------------------------

  /** A strictly ordered leaf is ranked. */
  lemma OrderedIsRanked(s: LeafState)
    requires Ordered(s)
    ensures Ranked(s)
  {
    forall i, j | 0 <= i < j < s.keyCount
      ensures !Less(s.keys[j].value, s.keys[i].value)
    {
      LessAsymmetric(s.keys[i].value, s.keys[j].value);
    }
    forall i | 1 <= i < s.keyCount
      ensures s.keys[i].value != []
    {
      assert Less(s.keys[0].value, s.keys[i].value);
    }
  }

  /** On a ranked leaf `binarySearch` either lands on `key`, or on the
      point that splits the keys below `key` from those above it. */
  lemma SearchPosLands(s: LeafState, key: Str)
    requires Ranked(s)
    ensures var p := SearchPos(s, key);
            || FoundAt(s, key, p)
            || ((forall i :: 0 <= i < p ==> Less(s.keys[i].value, key))
                && (forall i :: p <= i < s.keyCount ==> Less(key, s.keys[i].value)))
  {
    SearchWindowLands(s.keys, s.keyCount, key, 0, s.keyCount - 1);
    var p := SearchPos(s, key);
    assert LandsAt(s.keys, s.keyCount, key, p);
    if !FoundAt(s, key, p) {
      assert SplitsAt(s.keys, s.keyCount, key, p);
    }
  }

  /** `insertKeyValue` on a ranked leaf with room keeps it ranked; a key
      not below the first one leaves the first one in place. */
  lemma InsertRanked(s: LeafState, key: Str, value: Option<seq<Str>>, rowId: Str)
    requires Ranked(s) && !IsFull(s)
    ensures var r := Insert(s, key, value, rowId).value;
            && Ranked(r)
            && (s.keyCount > 0 && !Less(key, s.keys[0].value) ==> r.keys[0] == s.keys[0])
  {
    var p := SearchPos(s, key);
    SearchPosLands(s, key);
    if !FoundAt(s, key, p) {
      var r := Insert(s, key, value, rowId).value;
      assert r.keys == ShiftIn(s.keys, s.keyCount, p, Some(key));
      forall i, j | 0 <= i < j < r.keyCount
        ensures !Less(r.keys[j].value, r.keys[i].value)
      {
        if i < p && j == p {
          LessAsymmetric(r.keys[i].value, key);
        } else if i < p && j > p {
          assert r.keys[j] == s.keys[j - 1];
          LessTransitive(r.keys[i].value, key, r.keys[j].value);
          LessAsymmetric(r.keys[i].value, r.keys[j].value);
        } else if i == p {
          LessAsymmetric(key, r.keys[j].value);
        }
      }
      forall i | 1 <= i < r.keyCount
        ensures r.keys[i].value != []
      {
        if i == p {
          assert Less(s.keys[0].value, key);
        } else if i == p + 1 && p == 0 {
          assert Less(key, s.keys[0].value);
        }
      }
      if s.keyCount > 0 && !Less(key, s.keys[0].value) {
        assert p > 0;
      }
    }
  }

  /** `removeKey` keeps a ranked leaf ranked. */
  lemma RemoveRanked(s: LeafState, key: Str)
    requires Ranked(s)
    ensures Ranked(Remove(s, key).0)
  {
    var p := SearchPos(s, key);
    if FoundAt(s, key, p) {
      var r := Remove(s, key).0;
      assert r.keys == ShiftOut(s.keys, s.keyCount, p, None);
      forall i, j | 0 <= i < j < r.keyCount
        ensures !Less(r.keys[j].value, r.keys[i].value)
      {
        var i', j' := if i < p then i else i + 1, if j < p then j else j + 1;
        assert r.keys[i] == s.keys[i'] && r.keys[j] == s.keys[j'];
      }
      forall i | 1 <= i < r.keyCount
        ensures r.keys[i].value != []
      {
        assert r.keys[i] == s.keys[if i < p then i else i + 1];
      }
    }
  }

  /** `split` of a ranked leaf gives two ranked leaves; the new leaf starts
      with the key at the middle index. */
  lemma SplitRanked(s: LeafState)
    requires Ranked(s) && s.keyCount >= 2
    ensures var (left, right) := Split(s).value;
            Ranked(left) && Ranked(right) && right.keys[0] == s.keys[s.keyCount / 2]
  {
    var (left, right) := Split(s).value;
    var mid := s.keyCount / 2;
    forall i, j | 0 <= i < j < right.keyCount
      ensures !Less(right.keys[j].value, right.keys[i].value)
    {
      assert right.keys[i] == s.keys[mid + i] && right.keys[j] == s.keys[mid + j];
    }
    forall i | 1 <= i < right.keyCount
      ensures right.keys[i].value != []
    {
      assert right.keys[i] == s.keys[mid + i];
    }
  }
}

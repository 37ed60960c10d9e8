/** InternalNode.java as values: the node's fields, and each operation as a
    function from the old fields to the new ones. The class in
    internal_node.dfy implements these with Java's arrays and loops.

    Java gives the key array `maxKeys` slots (the constructor of
    BPlusTreeNode) and the child array `maxKeys + 2`. The split path of the
    engine inserts into a full node, which needs key slot `maxKeys`: this
    model gives the key array `maxKeys + 1` slots, and
    `InsertKeyChildForSplitAsWritten` states what Java's shorter array does. */
module Internals {
  import opened Types
  import opened NodeBase

  /** An internal node's fields: `keyCount`, `parentPageId`, the key array
      and `childPageIds`. */
  datatype InternalState = InternalState(keyCount: int, parent: int, keys: seq<Option<Str>>, children: seq<int>)

  /** The node's `maxKeys`: two fewer than its child slots. */
  function MaxKeys(s: InternalState): int {
    |s.children| - 2
  }

  /** The arrays of a node: `maxKeys + 1` key slots and `maxKeys + 2`
      child slots. */
  predicate Shape(s: InternalState) {
    |s.children| >= 2 && |s.keys| == |s.children| - 1 && IsInt32(|s.children|)
  }

  /** The shape every node keeps: its arrays, a key count within the key
      slots, and Java `int` fields. */
  predicate Wf(s: InternalState) {
    && Shape(s)
    && 0 <= s.keyCount <= |s.keys| && IsInt32(s.parent)
    && forall i :: 0 <= i < |s.children| ==> IsInt32(s.children[i])
  }

  /** A well-formed node whose first `keyCount` keys are non-null and
      strictly increasing. */
  predicate Ordered(s: InternalState) {
    Wf(s) && NonNull(s.keys, s.keyCount) && Sorted(s.keys, s.keyCount)
  }

  /** `new InternalNode(pageId, maxKeys)`: no keys, no parent, and every
      child slot -1. */
  function Fresh(maxKeys: nat): (s: InternalState)
    requires IsInt32(maxKeys + 2)
    ensures Ordered(s) && s.keyCount == 0 && s.parent == -1 && MaxKeys(s) == maxKeys
    ensures forall i :: 0 <= i < |s.children| ==> s.children[i] == -1
  {
    InternalState(0, -1, NullKeys(maxKeys + 1), seq(maxKeys + 2, _ => -1))
  }

  /** `isFull`. */
  predicate IsFull(s: InternalState) {
    s.keyCount >= MaxKeys(s)
  }

  /** `isUnderflow`: fewer than half of `maxKeys` keys. */
  predicate IsUnderflow(s: InternalState)
    requires Wf(s)
  {
    s.keyCount < MaxKeys(s) / 2
  }

  /** The keys below `keyCount`, in slot order. */
  function Keys(s: InternalState): (ks: seq<Str>)
    requires Wf(s) && NonNull(s.keys, s.keyCount)
    ensures |ks| == s.keyCount
    ensures forall i :: 0 <= i < s.keyCount ==> ks[i] == s.keys[i].value
  {
    seq(s.keyCount, i requires 0 <= i < s.keyCount => s.keys[i].value)
  }

  /** The children a node routes to: slots 0 to `keyCount`. */
  function Children(s: InternalState): (cs: seq<int>)
    requires Wf(s)
    ensures |cs| == s.keyCount + 1
  {
    s.children[..s.keyCount + 1]
  }

  // ---------------------------------------------------------------------
  // findChild
  // ---------------------------------------------------------------------

  /** The scan of `findChild` from `pos`: it moves past keys that are
      non-null and not above `key`. */
  function RoutePos(keys: seq<Option<Str>>, n: int, key: Str, pos: int): (p: int)
    requires 0 <= pos <= n <= |keys|
    ensures pos <= p <= n
    decreases n - pos
  {
    if pos < n && keys[pos].Some? && !Less(key, keys[pos].value) then RoutePos(keys, n, key, pos + 1)
    else pos
  }

  /** The fallback loop of `findChild`: the first child from slot `i` to
      slot `n` that is not -1, or -1. */
  function FirstLive(children: seq<int>, n: int, i: int): (c: int)
    requires 0 <= i && n < |children|
    ensures c == -1 || exists j :: i <= j <= n && children[j] == c
    decreases n - i + 1
  {
    if i > n then -1
    else if children[i] != -1 then children[i]
    else FirstLive(children, n, i + 1)
  }

  /** `findChild(key)`: child 0 of a node without keys; otherwise the child
      after the leading keys not above `key` when that slot is set, and
      else the first set child (or -1). */
  function FindChild(s: InternalState, key: Str): (c: int)
    requires Wf(s)
  {
    if s.keyCount == 0 then s.children[0]
    else
      var pos := RoutePos(s.keys, s.keyCount, key, 0);
      if s.children[pos] != -1 then s.children[pos]
      else FirstLive(s.children, s.keyCount, 0)
  }

  /** On ordered keys the scan stops exactly after the keys not above `key`:
      equal keys route right. */
  lemma {:induction false} RoutePosSplits(keys: seq<Option<Str>>, n: int, key: Str, pos: int)
    requires NonNull(keys, n) && Sorted(keys, n) && 0 <= pos <= n
    requires forall i :: 0 <= i < pos ==> !Less(key, keys[i].value)
    ensures var p := RoutePos(keys, n, key, pos);
            && (forall i :: 0 <= i < p ==> !Less(key, keys[i].value))
            && (forall i :: p <= i < n ==> Less(key, keys[i].value))
    decreases n - pos
  {
    if pos < n {
      if !Less(key, keys[pos].value) {
        RoutePosSplits(keys, n, key, pos + 1);
      } else {
        forall i | pos < i < n
          ensures Less(key, keys[i].value)
        {
          LessTransitive(key, keys[pos].value, keys[i].value);
        }
      }
    }
  }

  /** `findChild` answers one of the routed children, or -1. */
  lemma FindChildRange(s: InternalState, key: Str)
    requires Wf(s)
    ensures var c := FindChild(s, key);
            c == -1 || exists j :: 0 <= j <= s.keyCount && s.children[j] == c
  {
  }

  /** On an ordered node, `findChild` picks the child whose keys bracket
      `key`: every key before it is at most `key`, every key from it on is
      above `key` (a key equal to a separator goes right). When that child
      slot is -1 it falls back to the first set child. */
  lemma FindChildRoutes(s: InternalState, key: Str)
    requires Ordered(s) && s.keyCount > 0
    ensures exists p :: 0 <= p <= s.keyCount
              && (forall i :: 0 <= i < p ==> !Less(key, s.keys[i].value))
              && (forall i :: p <= i < s.keyCount ==> Less(key, s.keys[i].value))
              && FindChild(s, key) == (if s.children[p] != -1 then s.children[p]
                                       else FirstLive(s.children, s.keyCount, 0))
  {
    RoutePosSplits(s.keys, s.keyCount, key, 0);
    var p := RoutePos(s.keys, s.keyCount, key, 0);
    assert FindChild(s, key) == (if s.children[p] != -1 then s.children[p]
                                 else FirstLive(s.children, s.keyCount, 0));
  }

  // ---------------------------------------------------------------------
  // insertKeyChild and insertKeyChildForSplit
  // ---------------------------------------------------------------------

  /** The position scan of `insertKeyChild`: it moves past keys that are
      non-null and below `key`. */
  function InsertPos(keys: seq<Option<Str>>, n: int, key: Str, pos: int): (p: int)
    requires 0 <= pos <= n <= |keys|
    ensures pos <= p <= n
    decreases n - pos
  {
    if pos < n && keys[pos].Some? && Less(keys[pos].value, key) then InsertPos(keys, n, key, pos + 1)
    else pos
  }

  /** The insertion both `insertKeyChild` variants perform once their guard
      passes: the key at the scan position, `left` in the child slot before
      it and `right` after it, later keys and children one slot right. */
  function InsertAt(s: InternalState, key: Str, left: int, right: int): (r: InternalState)
    requires Wf(s) && s.keyCount < |s.keys| && IsInt32(left) && IsInt32(right)
    ensures Wf(r) && r.keyCount == s.keyCount + 1 && r.parent == s.parent
  {
    var pos := InsertPos(s.keys, s.keyCount, key, 0);
    InternalState(s.keyCount + 1, s.parent,
                  ShiftIn(s.keys, s.keyCount, pos, Some(key)),
                  ShiftIn(s.children, s.keyCount + 1, pos + 1, right)[pos := left])
  }

  /** `insertKeyChild(key, left, right)`: refused on a full node. */
  function InsertKeyChild(s: InternalState, key: Str, left: int, right: int): (r: Result<InternalState>)
    requires Wf(s) && IsInt32(left) && IsInt32(right)
    ensures r.Err? <==> IsFull(s)
    ensures r.Err? ==> r.error == InternalFull
  {
    if s.keyCount >= MaxKeys(s) then Err(InternalFull)
    else Ok(InsertAt(s, key, left, right))
  }

  /** `insertKeyChildForSplit(key, left, right)`: accepted up to `maxKeys`
      keys, one more than `insertKeyChild`. */
  function InsertKeyChildForSplit(s: InternalState, key: Str, left: int, right: int): (r: Result<InternalState>)
    requires Wf(s) && IsInt32(left) && IsInt32(right)
    ensures r.Err? <==> s.keyCount > MaxKeys(s)
    ensures r.Err? ==> r.error == OverSplitCapacity
  {
    if s.keyCount >= MaxKeys(s) + 1 then Err(OverSplitCapacity)
    else Ok(InsertAt(s, key, left, right))
  }

  /** On ordered keys the insertion scan stops after exactly the keys below `key`. */
  lemma {:induction false} InsertPosSplits(keys: seq<Option<Str>>, n: int, key: Str, pos: int)
    requires NonNull(keys, n) && Sorted(keys, n) && 0 <= pos <= n
    requires forall i :: 0 <= i < pos ==> Less(keys[i].value, key)
    ensures var p := InsertPos(keys, n, key, pos);
            && (forall i :: 0 <= i < p ==> Less(keys[i].value, key))
            && (forall i :: p <= i < n ==> !Less(keys[i].value, key))
    decreases n - pos
  {
    if pos < n {
      if Less(keys[pos].value, key) {
        InsertPosSplits(keys, n, key, pos + 1);
      } else {
        forall i | pos < i < n
          ensures !Less(keys[i].value, key)
        {
          if Less(keys[i].value, key) {
            LessTransitive(keys[pos].value, keys[i].value, key);
          }
        }
      }
    }
  }

  /** The insertion scan stops at the number of keys below `key`. */
  lemma InsertPosIsCountLess(keys: seq<Option<Str>>, n: int, key: Str)
    requires NonNull(keys, n) && Sorted(keys, n) && n <= |keys|
    ensures InsertPos(keys, n, key, 0) == CountLess(keys, n, key)
  {
    InsertPosSplits(keys, n, key, 0);
    SplitPointIsCountLess(keys, n, key, InsertPos(keys, n, key, 0));
  }

  /** The keys after an insertion at the scan position. */
  lemma InsertAtKeys(s: InternalState, key: Str, left: int, right: int)
    requires Ordered(s) && s.keyCount < |s.keys| && IsInt32(left) && IsInt32(right)
    ensures var r := InsertAt(s, key, left, right);
            && NonNull(r.keys, r.keyCount)
            && Keys(r) == Keys(s)[..CountLess(s.keys, s.keyCount, key)] + [key] + Keys(s)[CountLess(s.keys, s.keyCount, key)..]
  {
    InsertPosIsCountLess(s.keys, s.keyCount, key);
    var r := InsertAt(s, key, left, right);
    var p, ks := CountLess(s.keys, s.keyCount, key), Keys(s);
    var t := ks[..p] + [key] + ks[p..];
    forall i | 0 <= i < |t|
      ensures r.keys[i] == Some(t[i])
    {
      if i < p {
        assert t[i] == ks[i];
      } else if p < i {
        assert t[i] == ks[i - 1];
      }
    }
    assert Keys(r) == t;
  }

  /** The children after an insertion at the scan position. */
  lemma InsertAtChildren(s: InternalState, key: Str, left: int, right: int)
    requires Ordered(s) && s.keyCount < |s.keys| && IsInt32(left) && IsInt32(right)
    ensures var r := InsertAt(s, key, left, right);
            var p := CountLess(s.keys, s.keyCount, key);
            Children(r) == Children(s)[..p] + [left, right] + Children(s)[p + 1..]
  {
    InsertPosIsCountLess(s.keys, s.keyCount, key);
    var r := InsertAt(s, key, left, right);
    var p := CountLess(s.keys, s.keyCount, key);
    assert Children(r) == Children(s)[..p] + [left, right] + Children(s)[p + 1..];
  }

  /** Keys strictly increasing, as a sequence. */
  predicate Increasing(ks: seq<Str>) {
    forall i, j :: 0 <= i < j < |ks| ==> Less(ks[i], ks[j])
  }

  /** Putting a key that is not present between the keys below it and the
      keys above it keeps the sequence increasing. */
  lemma IncreasingInsert(ks: seq<Str>, p: int, key: Str)
    requires Increasing(ks) && 0 <= p <= |ks|
    requires forall i :: 0 <= i < p ==> Less(ks[i], key)
    requires forall i :: p <= i < |ks| ==> !Less(ks[i], key) && ks[i] != key
    ensures Increasing(ks[..p] + [key] + ks[p..])
  {
    var t := ks[..p] + [key] + ks[p..];
    forall i, j | 0 <= i < j < |t|
      ensures Less(t[i], t[j])
    {
      if i == p {
        LessTotal(key, ks[j - 1]);
      } else if i < p && j > p {
        assert t[j] == ks[j - 1];
        LessTotal(key, ks[j - 1]);
        LessTransitive(ks[i], key, ks[j - 1]);
      }
    }
  }

  /** `Sorted` is `Increasing` of the keys. */
  lemma SortedIsIncreasing(s: InternalState)
    requires Wf(s) && NonNull(s.keys, s.keyCount)
    ensures Sorted(s.keys, s.keyCount) <==> Increasing(Keys(s))
  {
  }

  /** Inserting a key that is not present into an ordered node with a free
      key slot: the node stays ordered, the key lands among the others in
      order, `left` and `right` flank it, and the children before and after
      the pair are the old ones. */
  lemma InsertAtOrdered(s: InternalState, key: Str, left: int, right: int)
    requires Ordered(s) && s.keyCount < |s.keys| && !Present(s.keys, s.keyCount, key)
    requires IsInt32(left) && IsInt32(right)
    ensures var r := InsertAt(s, key, left, right);
            var p := CountLess(s.keys, s.keyCount, key);
            && Ordered(r) && r.parent == s.parent && |r.keys| == |s.keys| && |r.children| == |s.children|
            && Keys(r) == Keys(s)[..p] + [key] + Keys(s)[p..]
            && Children(r) == Children(s)[..p] + [left, right] + Children(s)[p + 1..]
  {
    var r := InsertAt(s, key, left, right);
    var p := CountLess(s.keys, s.keyCount, key);
    InsertAtKeys(s, key, left, right);
    InsertAtChildren(s, key, left, right);
    CountLessSplits(s.keys, s.keyCount, key);
    forall i | p <= i < s.keyCount
      ensures Keys(s)[i] != key
    {
      assert s.keys[i] == Some(Keys(s)[i]);
    }
    SortedIsIncreasing(s);
    IncreasingInsert(Keys(s), p, key);
    SortedIsIncreasing(r);
  }

  /** The engine's promotion into a non-full parent: the key is placed in
      order with its two children. */
  lemma InsertKeyChildOrdered(s: InternalState, key: Str, left: int, right: int)
    requires Ordered(s) && !IsFull(s) && !Present(s.keys, s.keyCount, key)
    requires IsInt32(left) && IsInt32(right)
    ensures InsertKeyChild(s, key, left, right).Ok?
    ensures var r := InsertKeyChild(s, key, left, right).value;
            var p := CountLess(s.keys, s.keyCount, key);
            && Ordered(r) && r.keyCount == s.keyCount + 1
            && Keys(r) == Keys(s)[..p] + [key] + Keys(s)[p..]
            && Children(r) == Children(s)[..p] + [left, right] + Children(s)[p + 1..]
  {
    InsertAtOrdered(s, key, left, right);
  }

  /** With the key array of `maxKeys + 1` slots, the split path's insertion
      into a full node succeeds and keeps the node ordered. */
  lemma InsertKeyChildForSplitOrdered(s: InternalState, key: Str, left: int, right: int)
    requires Ordered(s) && s.keyCount <= MaxKeys(s) && !Present(s.keys, s.keyCount, key)
    requires IsInt32(left) && IsInt32(right)
    ensures InsertKeyChildForSplit(s, key, left, right).Ok?
    ensures var r := InsertKeyChildForSplit(s, key, left, right).value;
            var p := CountLess(s.keys, s.keyCount, key);
            && Ordered(r) && r.keyCount == s.keyCount + 1
            && Keys(r) == Keys(s)[..p] + [key] + Keys(s)[p..]
            && Children(r) == Children(s)[..p] + [left, right] + Children(s)[p + 1..]
  {
    InsertAtOrdered(s, key, left, right);
  }

  // ---------------------------------------------------------------------
  // insertKeyChildForSplit on Java's key array
  // ---------------------------------------------------------------------

  /** The fields as Java allocates them: `maxKeys` key slots. */
  predicate WfAsWritten(s: InternalState) {
    && |s.children| >= 2 && |s.keys| == |s.children| - 2
    && 0 <= s.keyCount <= |s.keys|
  }

  /** `insertKeyChildForSplit` on Java's `maxKeys` key slots. Its guard lets
      `keyCount == maxKeys` through; the shift loop then starts by storing
      into `keys[maxKeys]` (or, when the key goes last, the store of the key
      itself does), which is outside the array: an
      ArrayIndexOutOfBoundsException before anything has changed. */
  function InsertKeyChildForSplitAsWritten(s: InternalState, key: Str, left: int, right: int): (r: Result<InternalState>)
    requires WfAsWritten(s)
  {
    if s.keyCount >= MaxKeys(s) + 1 then Err(OverSplitCapacity)
    else if s.keyCount >= |s.keys| then Err(OutOfBounds)
    else
      var pos := InsertPos(s.keys, s.keyCount, key, 0);
      Ok(InternalState(s.keyCount + 1, s.parent,
                       ShiftIn(s.keys, s.keyCount, pos, Some(key)),
                       ShiftIn(s.children, s.keyCount + 1, pos + 1, right)[pos := left]))
  }

  /** As written, the split variant accepts exactly the nodes `insertKeyChild`
      accepts: on the full nodes the engine calls it with, it always throws. */
  lemma ForSplitAsWrittenFailsWhenFull(s: InternalState, key: Str, left: int, right: int)
    requires WfAsWritten(s)
    ensures InsertKeyChildForSplitAsWritten(s, key, left, right).Ok? <==> s.keyCount < MaxKeys(s)
    ensures s.keyCount == MaxKeys(s) ==>
              InsertKeyChildForSplitAsWritten(s, key, left, right) == Err(OutOfBounds)
  {
  }

  /** The engine's configuration, `maxKeys` = 10: a parent holding ten keys
      `"a"`..`"j"` makes the split path throw instead of splitting. */
  lemma ForSplitAsWrittenTenKeys()
    ensures var ks := seq(10, i requires 0 <= i < 10 => Some([97 + i]));
            var s := InternalState(10, -1, ks, seq(12, i => i));
            WfAsWritten(s) && MaxKeys(s) == 10
            && InsertKeyChildForSplitAsWritten(s, [107], 10, 20) == Err(OutOfBounds)
  {
  }

  // ---------------------------------------------------------------------
  // split and getMiddleKey
  // ---------------------------------------------------------------------

  /** The node `split()` leaves behind: the keys before slot `keyCount / 2`
      and the children up to it; the other slots cleared. */
  function KeptHalf(s: InternalState): (left: InternalState)
    requires Wf(s) && s.keyCount >= 3
    ensures Wf(left)
  {
    var kc, mid := s.keyCount, s.keyCount / 2;
    s.(keyCount := mid,
       keys := Blank(s.keys, mid, kc, None),
       children := Blank(s.children, mid + 1, kc + 1, -1))
  }

  /** The new node `split()` fills: the keys after slot `keyCount / 2` and
      the children after it, moved to the front, without a parent. */
  function MovedHalf(s: InternalState): (right: InternalState)
    requires Wf(s) && s.keyCount >= 3
    ensures Wf(right)
  {
    var kc, mid := s.keyCount, s.keyCount / 2;
    InternalState(kc - mid - 1, -1,
                  MovedOut(s.keys, mid + 1, kc, |s.keys|, None),
                  MovedOut(s.children, mid + 1, kc + 1, |s.children|, -1))
  }

  /** `split()`: refused below three keys; otherwise the key at `keyCount / 2`
      is set aside as the split middle key, and the result is (this node
      after the split, the new node, the middle key). */
  function Split(s: InternalState): (r: Result<(InternalState, InternalState, Option<Str>)>)
    requires Wf(s)
    ensures r.Err? <==> s.keyCount < 3
    ensures r.Err? ==> r.error == TooFewKeys
    ensures r.Ok? ==> Wf(r.value.0) && Wf(r.value.1)
  {
    if s.keyCount < 3 then Err(TooFewKeys)
    else Ok((KeptHalf(s), MovedHalf(s), s.keys[s.keyCount / 2]))
  }

  /** The kept half holds the keys and children before the middle, all
      below the middle key. */
  lemma KeptHalfParts(s: InternalState)
    requires Ordered(s) && s.keyCount >= 3
    ensures var left, mid := KeptHalf(s), s.keyCount / 2;
            && Ordered(left) && left.keyCount == mid && left.parent == s.parent
            && Keys(left) == Keys(s)[..mid] && Children(left) == Children(s)[..mid + 1]
            && forall i :: 0 <= i < left.keyCount ==> Less(left.keys[i].value, s.keys[mid].value)
  {
    var left, mid := KeptHalf(s), s.keyCount / 2;
    assert Keys(left) == Keys(s)[..mid];
    assert Children(left) == Children(s)[..mid + 1];
  }

  /** The moved half holds the keys and children after the middle, in
      order, all above the middle key. */
  lemma MovedHalfParts(s: InternalState)
    requires Ordered(s) && s.keyCount >= 3
    ensures var right, mid := MovedHalf(s), s.keyCount / 2;
            && Ordered(right) && right.keyCount == s.keyCount - mid - 1 && right.parent == -1
            && Keys(right) == Keys(s)[mid + 1..] && Children(right) == Children(s)[mid + 1..]
            && forall i :: 0 <= i < right.keyCount ==> Less(s.keys[mid].value, right.keys[i].value)
  {
    var right, mid := MovedHalf(s), s.keyCount / 2;
    forall i, j | 0 <= i < j < right.keyCount
      ensures Less(right.keys[i].value, right.keys[j].value)
    {
      assert right.keys[i] == s.keys[mid + 1 + i] && right.keys[j] == s.keys[mid + 1 + j];
    }
    forall i | 0 <= i < right.keyCount
      ensures Less(s.keys[mid].value, right.keys[i].value)
    {
      assert right.keys[i] == s.keys[mid + 1 + i];
    }
    assert Keys(right) == Keys(s)[mid + 1..];
    assert Children(right) == Children(s)[mid + 1..];
  }

  /** Splitting an ordered node gives the two halves above and the middle
      key: the left keys, the middle key and the right keys are the original
      keys in order (so the middle key is in neither half), and the children
      of the halves are the original children. */
  lemma SplitParts(s: InternalState)
    requires Ordered(s) && s.keyCount >= 3
    ensures Split(s) == Ok((KeptHalf(s), MovedHalf(s), s.keys[s.keyCount / 2]))
    ensures Keys(KeptHalf(s)) + [s.keys[s.keyCount / 2].value] + Keys(MovedHalf(s)) == Keys(s)
    ensures Children(KeptHalf(s)) + Children(MovedHalf(s)) == Children(s)
  {
    var mid := s.keyCount / 2;
    var ks, cs := Keys(s), Children(s);
    KeptHalfParts(s);
    MovedHalfParts(s);
    assert ks == ks[..mid] + [ks[mid]] + ks[mid + 1..];
    assert cs == cs[..mid + 1] + cs[mid + 1..];
  }

  /** `getMiddleKey()`: refused on a node without keys; otherwise the key at
      `keyCount / 2`. */
  function GetMiddleKey(s: InternalState): (r: Result<Option<Str>>)
    requires Wf(s)
    ensures r.Err? <==> s.keyCount == 0
    ensures r.Err? ==> r.error == NoKeys
    ensures r.Ok? ==> exists i :: 0 <= i < s.keyCount && r.value == s.keys[i]
  {
    if s.keyCount == 0 then Err(NoKeys) else Ok(s.keys[s.keyCount / 2])
  }
}

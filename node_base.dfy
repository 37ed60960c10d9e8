/** BPlusTreeNode.java: what leaf and internal nodes share. A node's key
    array holds Java references, so a slot may be `null` (`None`); only the
    first `keyCount` slots are meaningful. */
module NodeBase {
  import opened Types

  /** The first `n` slots of the key array are non-null. */
  predicate NonNull(ks: seq<Option<Str>>, n: int) {
    0 <= n <= |ks| && forall i :: 0 <= i < n ==> ks[i].Some?
  }

  /** The first `n` keys are strictly increasing (hence distinct). */
  predicate Sorted(ks: seq<Option<Str>>, n: int)
    requires NonNull(ks, n)
  {
    forall i, j :: 0 <= i < j < n ==> Less(ks[i].value, ks[j].value)
  }

  /** No key among the first `n` lies below an earlier one: the order that
      survives cutting strictly increasing keys to their stored prefix. */
  predicate NonDecreasing(ks: seq<Option<Str>>, n: int)
    requires NonNull(ks, n)
  {
    forall i, j :: 0 <= i < j < n ==> !Less(ks[j].value, ks[i].value)
  }

  /** The first `n` slots hold non-empty keys: the internal-node decoder
      reads an empty key back as null. */
  predicate NonEmpty(ks: seq<Option<Str>>, n: int) {
    NonNull(ks, n) && forall i :: 0 <= i < n ==> ks[i].value != []
  }

  /** `key` is one of the first `n` keys. */
  predicate Present(ks: seq<Option<Str>>, n: int, key: Str)
    requires 0 <= n <= |ks|
  {
    exists i :: 0 <= i < n && ks[i] == Some(key)
  }

  /** How many of the first `n` keys are less than `key`: the reference
      definition of a binary search's answer. */
  function CountLess(ks: seq<Option<Str>>, n: int, key: Str): (c: int)
    requires NonNull(ks, n)
    ensures 0 <= c <= n
  {
    if n == 0 then 0
    else CountLess(ks, n - 1, key) + (if Less(ks[n - 1].value, key) then 1 else 0)
  }

  /** On sorted keys, `CountLess` splits the keys into those below `key` and
      those at or above it. */
  lemma {:induction false} CountLessSplits(ks: seq<Option<Str>>, n: int, key: Str)
    requires NonNull(ks, n) && Sorted(ks, n)
    ensures var c := CountLess(ks, n, key);
            && (forall i :: 0 <= i < c ==> Less(ks[i].value, key))
            && (forall i :: c <= i < n ==> !Less(ks[i].value, key))
  {
    if n > 0 {
      CountLessSplits(ks, n - 1, key);
      var c := CountLess(ks, n - 1, key);
      if Less(ks[n - 1].value, key) {
        // every earlier key is below the last one, so none is at or above `key`
        forall i | 0 <= i < n - 1
          ensures Less(ks[i].value, key)
        {
          LessTransitive(ks[i].value, ks[n - 1].value, key);
        }
      }
    }
  }

  /** Any position that splits sorted keys that way is `CountLess`. */
  lemma SplitPointIsCountLess(ks: seq<Option<Str>>, n: int, key: Str, p: int)
    requires NonNull(ks, n) && Sorted(ks, n) && 0 <= p <= n
    requires forall i :: 0 <= i < p ==> Less(ks[i].value, key)
    requires forall i :: p <= i < n ==> !Less(ks[i].value, key)
    ensures p == CountLess(ks, n, key)
  {
    CountLessSplits(ks, n, key);
  }

  /** On sorted keys, `key` is present exactly when it sits at position `CountLess`. */
  lemma PresentAtCountLess(ks: seq<Option<Str>>, n: int, key: Str)
    requires NonNull(ks, n) && Sorted(ks, n)
    ensures var c := CountLess(ks, n, key);
            Present(ks, n, key) <==> c < n && ks[c] == Some(key)
  {
    CountLessSplits(ks, n, key);
    var c := CountLess(ks, n, key);
    if Present(ks, n, key) {
      var i :| 0 <= i < n && ks[i] == Some(key);
      LessIrreflexive(key);
    }
  }

  /** Sorted keys are distinct. */
  lemma SortedDistinct(ks: seq<Option<Str>>, n: int, i: int, j: int)
    requires NonNull(ks, n) && Sorted(ks, n)
    requires 0 <= i < n && 0 <= j < n && ks[i] == ks[j]
    ensures i == j
  {
    LessIrreflexive(ks[i].value);
  }

  /** A probe below `key` puts every key up to it below `key`. */
  lemma ProbeBelow(ks: seq<Option<Str>>, n: int, key: Str, mid: int)
    requires NonNull(ks, n) && Sorted(ks, n) && 0 <= mid < n
    requires Less(ks[mid].value, key)
    ensures forall i :: 0 <= i <= mid ==> Less(ks[i].value, key)
  {
    forall i | 0 <= i < mid
      ensures Less(ks[i].value, key)
    {
      LessTransitive(ks[i].value, ks[mid].value, key);
    }
  }

  /** A probe above `key` puts every key from it on above `key`. */
  lemma ProbeAbove(ks: seq<Option<Str>>, n: int, key: Str, mid: int)
    requires NonNull(ks, n) && Sorted(ks, n) && 0 <= mid < n
    requires ks[mid].value != key && !Less(ks[mid].value, key)
    ensures forall i :: mid <= i < n ==> Less(key, ks[i].value)
  {
    LessTotal(ks[mid].value, key);
    forall i | mid < i < n
      ensures Less(key, ks[i].value)
    {
      LessTransitive(key, ks[mid].value, ks[i].value);
    }
  }

  /** A probe equal to `key` is the split point `CountLess`. */
  lemma ProbeHit(ks: seq<Option<Str>>, n: int, key: Str, mid: int)
    requires NonNull(ks, n) && Sorted(ks, n) && 0 <= mid < n
    requires ks[mid].value == key
    ensures mid == CountLess(ks, n, key)
  {
    forall i | mid <= i < n
      ensures !Less(ks[i].value, key)
    {
      if i == mid {
        LessIrreflexive(key);
      } else {
        LessAsymmetric(key, ks[i].value);
      }
    }
    SplitPointIsCountLess(ks, n, key, mid);
  }

  /** Once the window is empty, its left end is the split point. */
  lemma WindowClosed(ks: seq<Option<Str>>, n: int, key: Str, left: int)
    requires NonNull(ks, n) && Sorted(ks, n) && 0 <= left <= n
    requires forall i :: 0 <= i < left ==> Less(ks[i].value, key)
    requires forall i :: left <= i < n ==> Less(key, ks[i].value)
    ensures left == CountLess(ks, n, key)
  {
    forall i | left <= i < n
      ensures !Less(ks[i].value, key)
    {
      LessAsymmetric(key, ks[i].value);
    }
    SplitPointIsCountLess(ks, n, key, left);
  }

  /** `BPlusTreeNode.binarySearch` (overridden by LeafNode, never called
      itself). It dereferences every key it probes, so the first `keyCount`
      slots must be non-null. On sorted keys it returns the key's index when
      present and otherwise the number of smaller keys. */
  method BinarySearch(keys: array<Option<Str>>, keyCount: int, key: Str) returns (r: int)
    requires NonNull(keys[..], keyCount)
    ensures 0 <= r <= keyCount
    ensures Sorted(keys[..], keyCount) ==> r == CountLess(keys[..], keyCount, key)
  {
    var left, right := 0, keyCount - 1;
    while left <= right
      invariant 0 <= left <= right + 1 <= keyCount
      invariant Sorted(keys[..], keyCount) ==> forall i :: 0 <= i < left ==> Less(keys[i].value, key)
      invariant Sorted(keys[..], keyCount) ==> forall i :: right < i < keyCount ==> Less(key, keys[i].value)
    {
      var mid := (left + right) / 2;
      var k := keys[mid].value;
      if k == key {
        if Sorted(keys[..], keyCount) {
          ProbeHit(keys[..], keyCount, key, mid);
        }
        return mid;
      } else if Less(k, key) {
        if Sorted(keys[..], keyCount) {
          ProbeBelow(keys[..], keyCount, key, mid);
        }
        left := mid + 1;
      } else {
        if Sorted(keys[..], keyCount) {
          ProbeAbove(keys[..], keyCount, key, mid);
        }
        right := mid - 1;
      }
    }
    if Sorted(keys[..], keyCount) {
      WindowClosed(keys[..], keyCount, key, left);
    }
    r := left;
  }

  /** `new LeafNode(...)`/`new InternalNode(...)` key arrays: all slots null. */
  function NullKeys(n: nat): (ks: seq<Option<Str>>)
    ensures |ks| == n && forall i :: 0 <= i < n ==> ks[i] == None
  {
    seq(n, _ => None)
  }

  /** The slots `[pos, n)` moved one place right and `x` put at `pos`; the
      slots after `n` keep their values (the shift-right loops of `insertKeyValue` and `insertKeyChild`). */
  function ShiftIn<T>(a: seq<T>, n: int, pos: int, x: T): (r: seq<T>)
    requires 0 <= pos <= n < |a|
    ensures |r| == |a|
    ensures forall i :: 0 <= i < pos ==> r[i] == a[i]
    ensures r[pos] == x
    ensures forall i :: pos < i <= n ==> r[i] == a[i - 1]
    ensures forall i :: n < i < |a| ==> r[i] == a[i]
  {
    a[..pos] + [x] + a[pos..n] + a[n + 1..]
  }

  /** The slots `(pos, n)` moved one place left and slot `n - 1` set to `fill`
      (`removeKey`'s shift-left loop followed by clearing the last slot). */
  function ShiftOut<T>(a: seq<T>, n: int, pos: int, fill: T): (r: seq<T>)
    requires 0 <= pos < n <= |a|
    ensures |r| == |a|
    ensures forall i :: 0 <= i < pos ==> r[i] == a[i]
    ensures forall i :: pos <= i < n - 1 ==> r[i] == a[i + 1]
    ensures r[n - 1] == fill
    ensures forall i :: n <= i < |a| ==> r[i] == a[i]
  {
    a[..pos] + a[pos + 1..n] + [fill] + a[n..]
  }

  /** The shift-right loop of an insert, on one array: slots [pos, n) move
      one place right; slot `pos` keeps its value until the caller stores. */
  method ShiftSlotsRight<T>(a: array<T>, n: int, pos: int)
    requires 0 <= pos <= n < a.Length
    modifies a
    ensures a[..] == ShiftIn(old(a[..]), n, pos, old(a[pos]))
  {
    var i := n;
    while i > pos
      invariant pos <= i <= n
      invariant forall j :: 0 <= j <= i ==> a[j] == old(a[j])
      invariant forall j :: i < j <= n ==> a[j] == old(a[j - 1])
      invariant forall j :: n < j < a.Length ==> a[j] == old(a[j])
    {
      a[i] := a[i - 1];
      i := i - 1;
    }
  }

  /** The shift-left loop of a remove, on one array: slots (pos, n) move one
      place left, then slot `n - 1` is cleared to `fill`. */
  method ShiftSlotsLeft<T>(a: array<T>, n: int, pos: int, fill: T)
    requires 0 <= pos < n <= a.Length
    modifies a
    ensures a[..] == ShiftOut(old(a[..]), n, pos, fill)
  {
    var i := pos;
    while i < n - 1
      invariant pos <= i <= n - 1
      invariant forall j :: 0 <= j < pos ==> a[j] == old(a[j])
      invariant forall j :: pos <= j < i ==> a[j] == old(a[j + 1])
      invariant forall j :: i <= j < a.Length ==> a[j] == old(a[j])
    {
      a[i] := a[i + 1];
      i := i + 1;
    }
    a[n - 1] := fill;
  }

  /** Storing into the opened slot of a shift-in. */
  lemma ShiftInStore<T>(a: seq<T>, n: int, pos: int, x: T, y: T)
    requires 0 <= pos <= n < |a|
    ensures ShiftIn(a, n, pos, x)[pos := y] == ShiftIn(a, n, pos, y)
  {
  }

  /** `a` with the slots [lo, hi) set to `fill`. */
  function Blank<T>(a: seq<T>, lo: int, hi: int, fill: T): (r: seq<T>)
    requires 0 <= lo <= hi <= |a|
    ensures |r| == |a|
    ensures forall i :: 0 <= i < |a| ==> r[i] == if lo <= i < hi then fill else a[i]
  {
    a[..lo] + seq(hi - lo, _ => fill) + a[hi..]
  }

  /** Clearing one more slot below a blanked range widens it. */
  lemma BlankWiden<T>(a: seq<T>, lo: int, hi: int, fill: T)
    requires 0 < lo <= hi <= |a|
    ensures Blank(a, lo, hi, fill)[lo - 1 := fill] == Blank(a, lo - 1, hi, fill)
  {
  }

  /** The slots [lo, hi) of `a` moved to the front of a fresh array of `n`
      slots filled with `fill`. */
  function MovedOut<T>(a: seq<T>, lo: int, hi: int, n: int, fill: T): (r: seq<T>)
    requires 0 <= lo <= hi <= |a| && hi - lo <= n
    ensures |r| == n
    ensures forall i :: 0 <= i < n ==> r[i] == if i < hi - lo then a[lo + i] else fill
  {
    a[lo..hi] + seq(n - (hi - lo), _ => fill)
  }

  /** What a `split` loop does to one array: slots [lo, hi) of `src` move to the
      front of `dst` (whose slots all hold `fill`) and are cleared in `src`. */
  method MoveSlots<T>(src: array<T>, dst: array<T>, lo: int, hi: int, fill: T)
    requires 0 <= lo <= hi <= src.Length && hi - lo <= dst.Length && src != dst
    requires forall j :: 0 <= j < dst.Length ==> dst[j] == fill
    modifies src, dst
    ensures src[..] == Blank(old(src[..]), lo, hi, fill)
    ensures dst[..] == MovedOut(old(src[..]), lo, hi, dst.Length, fill)
  {
    var i := lo;
    while i < hi
      invariant lo <= i <= hi
      invariant forall j :: 0 <= j < i - lo ==> dst[j] == old(src[lo + j])
      invariant forall j :: i - lo <= j < dst.Length ==> dst[j] == fill
      invariant forall j :: 0 <= j < src.Length ==> src[j] == if lo <= j < i then fill else old(src[j])
    {
      dst[i - lo] := src[i];
      src[i] := fill;
      i := i + 1;
    }
  }
}

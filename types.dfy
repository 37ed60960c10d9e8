/** Shared vocabulary of the model: bytes, byte strings, optional values,
    the errors the Java code throws, and the ordering of `String.compareTo`. */
module Types {

  /** One byte of a page or of the backing file, as an unsigned value. */
  type Byte = b: int | 0 <= b < 256

  /** A Java `String`, taken as the bytes of its UTF-8 encoding. */
  type Str = seq<Byte>

  /** A Java reference that may be `null`. */
  datatype Option<T> = None | Some(value: T)

  /** The exceptions the engine throws, one constructor per distinct cause. */
  datatype Error =
    | OutOfBounds          // IndexOutOfBoundsException from a Page accessor
    | LeafFull             // insertKeyValue on a full leaf
    | InternalFull         // insertKeyChild on a full internal node
    | OverSplitCapacity    // insertKeyChildForSplit beyond maxKeys + 1 keys
    | TooFewKeys           // split of a node with too few keys
    | NoKeys               // getMiddleKey on an empty internal node
    | PageSpaceExhausted   // leaf serialization ran out of page space
    | InvalidPageId        // fetchPage with a negative id
    | NoEvictablePage      // every resident page is pinned
    | DepthExceeded        // descent deeper than MAX_RECURSION_DEPTH
    | CycleDetected        // a page revisited on the current descent path
    | InvalidChild         // findChild produced a negative id
    | SelfReference        // a child id equal to its parent's id
    | UnknownNodeType      // a page whose type tag is neither 0 nor 1
    | RootIdConflict       // a fresh root id equal to a child id

  datatype Result<T> = Ok(value: T) | Err(error: Error)

  datatype Outcome = Pass | Fail(error: Error)

  /** Values a Java `int` can hold. */
  predicate IsInt32(v: int) {
    -0x8000_0000 <= v < 0x8000_0000
  }

  /** `a.compareTo(b) < 0`, as lexicographic order on the encoded bytes
      (the two agree for ASCII text). */
  predicate Less(a: Str, b: Str)
    decreases |a|
  {
    if |a| == 0 then |b| > 0
    else if |b| == 0 then false
    else a[0] < b[0] || (a[0] == b[0] && Less(a[1..], b[1..]))
  }

  lemma {:induction false} LessIrreflexive(a: Str)
    ensures !Less(a, a)
    decreases |a|
  {
    if |a| > 0 {
      LessIrreflexive(a[1..]);
    }
  }

  lemma {:induction false} LessTransitive(a: Str, b: Str, c: Str)
    requires Less(a, b) && Less(b, c)
    ensures Less(a, c)
    decreases |a|
  {
    if |a| > 0 && |b| > 0 && |c| > 0 && a[0] == b[0] == c[0] {
      LessTransitive(a[1..], b[1..], c[1..]);
    }
  }

  /** `compareTo` is a total order: any two strings are equal or ordered. */
  lemma {:induction false} LessTotal(a: Str, b: Str)
    ensures a == b || Less(a, b) || Less(b, a)
    decreases |a|
  {
    if |a| > 0 && |b| > 0 && a[0] == b[0] {
      LessTotal(a[1..], b[1..]);
      if a[1..] == b[1..] {
        assert a == [a[0]] + a[1..] && b == [b[0]] + b[1..];
      }
    }
  }

  lemma {:induction false} LessAsymmetric(a: Str, b: Str)
    requires Less(a, b)
    ensures !Less(b, a)
  {
    if Less(b, a) {
      LessTransitive(a, b, a);
      LessIrreflexive(a);
    }
  }

  /** `a <= b` and `b < c` give `a < c`. */
  lemma LessAfterLe(a: Str, b: Str, c: Str)
    requires !Less(b, a) && Less(b, c)
    ensures Less(a, c)
  {
    LessTotal(a, b);
    if a != b {
      LessTransitive(a, b, c);
    }
  }

  /** `a < b` and `b <= c` give `a < c`. */
  lemma LessBeforeLe(a: Str, b: Str, c: Str)
    requires Less(a, b) && !Less(c, b)
    ensures Less(a, c)
  {
    LessTotal(b, c);
    if b != c {
      LessTransitive(a, b, c);
    }
  }

  /** `a <= b` and `b <= c` give `a <= c`. */
  lemma LeTransitive(a: Str, b: Str, c: Str)
    requires !Less(b, a) && !Less(c, b)
    ensures !Less(c, a)
  {
    if Less(c, a) {
      LessAfterLe(b, c, a);
    }
  }

  /** The first `n` bytes of `a`, or all of `a` when it is shorter: what a
      string slot keeps of a longer string. */
  function Prefix(a: Str, n: nat): (p: Str)
    ensures |p| == Min(|a|, n) && p == a[..|p|]
  {
    a[..Min(|a|, n)]
  }

  /** Cutting two strings to the same length keeps their order, except
      that they may become equal. */
  lemma {:induction false} PrefixKeepsOrder(a: Str, b: Str, n: nat)
    requires !Less(b, a)
    ensures !Less(Prefix(b, n), Prefix(a, n))
    decreases n
  {
    if n > 0 && |a| > 0 && |b| > 0 && a[0] == b[0] {
      PrefixKeepsOrder(a[1..], b[1..], n - 1);
      assert Prefix(a, n)[1..] == Prefix(a[1..], n - 1);
      assert Prefix(b, n)[1..] == Prefix(b[1..], n - 1);
    }
  }

  /** A proper prefix of a string lies below it. */
  lemma {:induction false} ProperPrefixLess(p: Str, b: Str)
    requires |p| < |b| && p == b[..|p|]
    ensures Less(p, b)
    decreases |p|
  {
    if |p| > 0 {
      ProperPrefixLess(p[1..], b[1..]);
    }
  }

  function Min(a: int, b: int): int {
    if a <= b then a else b
  }

  function Max(a: int, b: int): int {
    if a >= b then a else b
  }
}

/** Page.java: a 4096-byte buffer with bounds-checked big-endian int and
    length-prefixed string accessors, a dirty flag and a pin counter. */
module Pages {
  import opened Types

  /** Page.PAGE_SIZE; every bound in Page uses this constant. */
  const PAGE_SIZE: int := 4096

  const TWO_32: int := 0x1_0000_0000

  /** A Java `int` sum or difference: `x` taken modulo 2^32 into the range
      of `int`, as the JVM's 32-bit arithmetic leaves it. */
  function Wrap32(x: int): (r: int)
    ensures IsInt32(r) && (r - x) % TWO_32 == 0
    ensures IsInt32(x) ==> r == x
  {
    var u := x % TWO_32;
    if u < 0x8000_0000 then u else u - TWO_32
  }

  function Zeros(n: nat): (z: seq<Byte>)
    ensures |z| == n
    ensures forall i :: 0 <= i < n ==> z[i] == 0
  {
    seq(n, _ => 0)
  }

  /** The four bytes `ByteBuffer.putInt` stores: big-endian two's complement. */
  function EncodeInt(v: int): (bs: seq<Byte>)
    ensures |bs| == 4
  {
    var u := v % TWO_32;
    var q1 := u / 0x100;
    var q2 := q1 / 0x100;
    [q2 / 0x100, q2 % 0x100, q1 % 0x100, u % 0x100]
  }

  /** The `int` that `ByteBuffer.getInt` reads back from four bytes. */
  function DecodeInt(bs: seq<Byte>): (v: int)
    requires |bs| == 4
    ensures IsInt32(v)
  {
    var u: int := ((bs[0] as int * 0x100 + bs[1]) * 0x100 + bs[2]) * 0x100 + bs[3];
    if u < 0x8000_0000 then u else u - TWO_32
  }

  lemma DecodeEncodeInt(v: int)
    requires IsInt32(v)
    ensures DecodeInt(EncodeInt(v)) == v
  {
    var u := v % TWO_32;
    var q1 := u / 0x100;
    var q2 := q1 / 0x100;
    assert u == q1 * 0x100 + u % 0x100;
    assert q1 == q2 * 0x100 + q1 % 0x100;
    assert q2 == (q2 / 0x100) * 0x100 + q2 % 0x100;
  }

  // ---------------------------------------------------------------------
  // The page contents as a byte sequence, and what each accessor does to it
  // ---------------------------------------------------------------------

  /** The bounds `writeInt` and `readInt` check. */
  predicate IntFits(offset: int) {
    0 <= offset && offset + 4 <= PAGE_SIZE
  }

  /** `readInt`: the int at `offset`, or 0 when the four bytes leave the page. */
  function ReadIntAt(s: seq<Byte>, offset: int): int
    requires |s| == PAGE_SIZE
  {
    if !IntFits(offset) then 0 else DecodeInt(s[offset..offset + 4])
  }

  /** `writeInt` on an offset it accepts: exactly bytes [offset, offset+4) change. */
  function WriteIntAt(s: seq<Byte>, offset: int, v: int): (r: seq<Byte>)
    requires |s| == PAGE_SIZE && IntFits(offset)
    ensures |r| == PAGE_SIZE
    ensures r[offset..offset + 4] == EncodeInt(v)
    ensures Agree(r, s, 0, offset) && Agree(r, s, offset + 4, PAGE_SIZE)
  {
    Splice(s, offset, EncodeInt(v), offset + 4);
    s[..offset] + EncodeInt(v) + s[offset + 4..]
  }

  /** The bounds `writeString` checks before it writes anything. */
  predicate SlotFits(offset: int, maxLength: int) {
    0 <= offset && offset + maxLength <= PAGE_SIZE
  }

  /** The number of payload bytes `writeString` stores: `Math.min` of the
      encoded length and `maxLength - 4`, the subtraction taken in `int`. */
  function StoredLength(str: Str, maxLength: int): int {
    Min(|str|, Wrap32(maxLength - 4))
  }

  /** The checks `writeString` makes before it stores the length prefix:
      `offset >= 0`, `offset + maxLength <= PAGE_SIZE` with the sum taken
      in `int`, and the index check of `ByteBuffer.putInt`, which also
      covers the second bounds test. */
  predicate PrefixFits(offset: int, maxLength: int) {
    0 <= offset && Wrap32(offset + maxLength) <= PAGE_SIZE && IntFits(offset)
  }

  /** Every check of `writeString`: those before the prefix, then the third
      bounds test and `ByteBuffer.put`'s own, which refuses a negative
      length and one past the end of the buffer. */
  predicate StringFits(offset: int, str: Str, maxLength: int) {
    PrefixFits(offset, maxLength)
    && 0 <= StoredLength(str, maxLength) && offset + 4 + StoredLength(str, maxLength) <= PAGE_SIZE
  }

  /** The bytes `writeString` leaves once its checks pass: the length prefix
      `len`, then the first `len` bytes of the string. */
  function PutStringAt(s: seq<Byte>, offset: int, str: Str, len: int): (r: seq<Byte>)
    requires |s| == PAGE_SIZE && IntFits(offset) && 0 <= len <= |str| && offset + 4 + len <= PAGE_SIZE
    ensures |r| == PAGE_SIZE
    ensures Agree(r, s, 0, offset) && Agree(r, s, offset + 4 + len, PAGE_SIZE)
  {
    var t := WriteIntAt(s, offset, len);
    Splice(t, offset + 4, str[..len], offset + 4 + len);
    var r := t[..offset + 4] + str[..len] + t[offset + 4 + len..];
    AgreeWithin(r, t, 0, offset + 4, 0, offset);
    AgreeTrans(r, t, s, 0, offset);
    AgreeWithin(t, s, offset + 4, PAGE_SIZE, offset + 4 + len, PAGE_SIZE);
    AgreeTrans(r, t, s, offset + 4 + len, PAGE_SIZE);
    r
  }

  /** `writeString` on a slot inside the page with `maxLength >= 4`: only
      the slot's bytes change. */
  function WriteStringAt(s: seq<Byte>, offset: int, str: Str, maxLength: int): (r: seq<Byte>)
    requires |s| == PAGE_SIZE && SlotFits(offset, maxLength) && maxLength >= 4
    ensures |r| == PAGE_SIZE
    ensures Agree(r, s, 0, offset) && Agree(r, s, offset + maxLength, PAGE_SIZE)
  {
    var len := StoredLength(str, maxLength);
    var r := PutStringAt(s, offset, str, len);
    AgreeWithin(r, s, offset + 4 + len, PAGE_SIZE, offset + maxLength, PAGE_SIZE);
    r
  }

  /** On a slot of 4 to `PAGE_SIZE` bytes, Java's wrapped sums change
      nothing: `writeString` succeeds exactly when the slot lies inside the
      page, and it writes the length prefix first exactly when, in addition,
      four bytes fit at the offset. */
  lemma SlotStringFits(offset: int, str: Str, maxLength: int)
    requires 4 <= maxLength <= PAGE_SIZE
    ensures StringFits(offset, str, maxLength) <==> SlotFits(offset, maxLength)
    ensures PrefixFits(offset, maxLength) <==> SlotFits(offset, maxLength) && IntFits(offset)
    ensures StoredLength(str, maxLength) == Min(|str|, maxLength - 4)
  {
    if PrefixFits(offset, maxLength) {
      assert offset + maxLength <= 2 * PAGE_SIZE;
    }
  }

  /** Slots the wrapped sums let through although they reach past the page:
      `writeString(10, "a", Integer.MAX_VALUE)` and
      `writeString(0, "a", Integer.MIN_VALUE)`, whose `maxLength - 4`
      wraps to a large positive bound, both store one byte. */
  lemma WideSlotsAccepted()
    ensures StringFits(10, [97], 0x7fff_ffff) && !SlotFits(10, 0x7fff_ffff)
    ensures StoredLength([97], 0x7fff_ffff) == 1
    ensures StringFits(0, [97], -0x8000_0000) && StoredLength([97], -0x8000_0000) == 1
  {
    assert Wrap32(10 + 0x7fff_ffff) == -0x7fff_fff7;
    assert Wrap32(-0x8000_0000 - 4) == 0x7fff_fffc;
  }

  /** `readString`: the payload of a well-formed slot, and "" whenever the
      offset is out of range or the stored length is not positive, exceeds the
      slot or overruns the page. */
  function ReadStringAt(s: seq<Byte>, offset: int, maxLength: int): Str
    requires |s| == PAGE_SIZE
  {
    if offset < 0 || offset + 4 > PAGE_SIZE then []
    else
      var len := ReadIntAt(s, offset);
      if len <= 0 || len > Wrap32(maxLength - 4) || offset + 4 + len > PAGE_SIZE then []
      else s[offset + 4..offset + 4 + len]
  }

  // ---------------------------------------------------------------------
  // Properties of the accessors
  // ---------------------------------------------------------------------

  /** `readInt(o)` after `writeInt(o, v)` gives back `v`. */
  lemma ReadWriteInt(s: seq<Byte>, offset: int, v: int)
    requires |s| == PAGE_SIZE && IntFits(offset) && IsInt32(v)
    ensures ReadIntAt(WriteIntAt(s, offset, v), offset) == v
  {
    DecodeEncodeInt(v);
  }

  /** `readInt(o)` sees only bytes [o, o+4). */
  lemma ReadIntLocal(s: seq<Byte>, t: seq<Byte>, offset: int)
    requires |s| == PAGE_SIZE && |t| == PAGE_SIZE && IntFits(offset)
    requires Agree(s, t, offset, offset + 4)
    ensures ReadIntAt(s, offset) == ReadIntAt(t, offset)
  {
    AgreeSlices(s, t, offset, offset + 4);
  }

  /** `readString(o, m)` sees only the slot's bytes [o, o+m). */
  lemma ReadStringLocal(s: seq<Byte>, t: seq<Byte>, offset: int, maxLength: int)
    requires |s| == PAGE_SIZE && |t| == PAGE_SIZE && SlotFits(offset, maxLength) && maxLength >= 4
    requires Agree(s, t, offset, offset + maxLength)
    ensures ReadStringAt(s, offset, maxLength) == ReadStringAt(t, offset, maxLength)
  {
    assert Wrap32(maxLength - 4) == maxLength - 4;
    AgreeWithin(s, t, offset, offset + maxLength, offset, offset + 4);
    ReadIntLocal(s, t, offset);
    var len := ReadIntAt(s, offset);
    if 0 < len <= maxLength - 4 {
      StringBytesAgree(s, t, offset, maxLength, len);
    }
  }

  /** The `len` string bytes after a slot's length prefix agree when the slot does. */
  lemma StringBytesAgree(s: seq<Byte>, t: seq<Byte>, offset: int, maxLength: int, len: int)
    requires |s| == PAGE_SIZE && |t| == PAGE_SIZE && SlotFits(offset, maxLength)
    requires 0 < len <= maxLength - 4 && Agree(s, t, offset, offset + maxLength)
    ensures s[offset + 4..offset + 4 + len] == t[offset + 4..offset + 4 + len]
  {
    AgreeWithin(s, t, offset, offset + maxLength, offset + 4, offset + 4 + len);
    AgreeSlices(s, t, offset + 4, offset + 4 + len);
  }

  /** `readString(o, m)` after `writeString(o, str, m)` gives back `str`
      when it encodes to 1..m-4 bytes. */
  lemma ReadWriteString(s: seq<Byte>, offset: int, str: Str, maxLength: int)
    requires |s| == PAGE_SIZE && SlotFits(offset, maxLength) && maxLength >= 4
    requires 1 <= |str| <= maxLength - 4
    ensures ReadStringAt(WriteStringAt(s, offset, str, maxLength), offset, maxLength) == str
  {
    WrittenStringReads(s, offset, str, maxLength);
  }

  /** A longer string reads back truncated to its first `m - 4` bytes. */
  lemma ReadWriteLongString(s: seq<Byte>, offset: int, str: Str, maxLength: int)
    requires |s| == PAGE_SIZE && SlotFits(offset, maxLength) && maxLength >= 5
    requires |str| > maxLength - 4
    ensures ReadStringAt(WriteStringAt(s, offset, str, maxLength), offset, maxLength) == str[..maxLength - 4]
  {
    WrittenStringReads(s, offset, str, maxLength);
  }

  /** An empty string reads back as "", like one that was never written. */
  lemma ReadWriteEmptyString(s: seq<Byte>, offset: int, maxLength: int)
    requires |s| == PAGE_SIZE && SlotFits(offset, maxLength) && maxLength >= 4
    ensures ReadStringAt(WriteStringAt(s, offset, [], maxLength), offset, maxLength) == []
  {
    WrittenStringReads(s, offset, [], maxLength);
  }

  lemma WrittenStringReads(s: seq<Byte>, offset: int, str: Str, maxLength: int)
    requires |s| == PAGE_SIZE && SlotFits(offset, maxLength) && maxLength >= 4
    ensures var len := StoredLength(str, maxLength);
            ReadStringAt(WriteStringAt(s, offset, str, maxLength), offset, maxLength)
              == if len <= 0 then [] else str[..len]
  {
    var len := StoredLength(str, maxLength);
    var t := WriteIntAt(s, offset, len);
    var r := WriteStringAt(s, offset, str, maxLength);
    assert r == t[..offset + 4] + str[..len] + t[offset + 4 + len..];
    ReadWriteInt(s, offset, len);
    Splice(t, offset + 4, str[..len], offset + 4 + len);
    AgreeWithin(r, t, 0, offset + 4, offset, offset + 4);
    ReadIntLocal(r, t, offset);
    assert r[offset + 4..offset + 4 + len] == str[..len];
  }

  /** What `readString` gives back after `writeString(o, str, m)`: the
      first `m - 4` bytes of `str`, the whole of it when it is short enough. */
  function StoredString(str: Str, maxLength: int): (r: Str)
    requires 4 <= maxLength && IsInt32(maxLength)
    ensures |r| <= maxLength - 4 && |r| <= |str| && r == str[..|r|]
    ensures |str| <= maxLength - 4 ==> r == str
  {
    str[..StoredLength(str, maxLength)]
  }

  /** Every string reads back as its stored prefix. */
  lemma ReadWriteStored(s: seq<Byte>, offset: int, str: Str, maxLength: int)
    requires |s| == PAGE_SIZE && SlotFits(offset, maxLength) && maxLength >= 4
    ensures ReadStringAt(WriteStringAt(s, offset, str, maxLength), offset, maxLength)
              == StoredString(str, maxLength)
  {
    WrittenStringReads(s, offset, str, maxLength);
  }

  /** A zero-filled page reads 0 everywhere and "" in every slot. */
  lemma ZeroPageReads(offset: int, maxLength: int)
    ensures ReadIntAt(Zeros(PAGE_SIZE), offset) == 0
    ensures ReadStringAt(Zeros(PAGE_SIZE), offset, maxLength) == []
  {
    if IntFits(offset) {
      assert Zeros(PAGE_SIZE)[offset..offset + 4] == [0, 0, 0, 0];
    }
  }

  /** `getRemainingSpace`: the bytes left after `currentOffset`, never
      negative. It reads no page state, so it is a plain function here. */
  function RemainingSpace(currentOffset: int): (r: int)
    ensures r >= 0 && currentOffset + r >= PAGE_SIZE
    ensures r > 0 ==> currentOffset + r == PAGE_SIZE
  {
    Max(0, PAGE_SIZE - currentOffset)
  }

  /** Bytes [lo, hi) of two equally long images agree, byte by byte from
      the top. */
  predicate Agree(a: seq<Byte>, b: seq<Byte>, lo: int, hi: int)
    requires |a| == |b| && 0 <= lo <= hi <= |a|
    decreases hi - lo
  {
    lo == hi || (a[hi - 1] == b[hi - 1] && Agree(a, b, lo, hi - 1))
  }

  /** Agreement on a range is equality of the two slices. */
  lemma {:induction false} AgreeSlices(a: seq<Byte>, b: seq<Byte>, lo: int, hi: int)
    requires |a| == |b| && 0 <= lo <= hi <= |a|
    ensures Agree(a, b, lo, hi) <==> a[lo..hi] == b[lo..hi]
    decreases hi - lo
  {
    if lo < hi {
      AgreeSlices(a, b, lo, hi - 1);
      assert a[lo..hi] == a[lo..hi - 1] + [a[hi - 1]];
      assert b[lo..hi] == b[lo..hi - 1] + [b[hi - 1]];
      if a[lo..hi] == b[lo..hi] {
        assert a[lo..hi - 1] == a[lo..hi][..hi - 1 - lo] == b[lo..hi][..hi - 1 - lo] == b[lo..hi - 1];
        assert a[hi - 1] == a[lo..hi][hi - 1 - lo];
      }
    }
  }

  /** Agreement is symmetric and transitive. */
  lemma AgreeTrans(a: seq<Byte>, b: seq<Byte>, c: seq<Byte>, lo: int, hi: int)
    requires |a| == |b| == |c| && 0 <= lo <= hi <= |a|
    requires Agree(a, b, lo, hi) && Agree(b, c, lo, hi)
    ensures Agree(a, c, lo, hi) && Agree(c, a, lo, hi)
  {
    AgreeSlices(a, b, lo, hi);
    AgreeSlices(b, c, lo, hi);
    AgreeSlices(a, c, lo, hi);
    AgreeSlices(c, a, lo, hi);
  }

  /** Every image agrees with itself. */
  lemma AgreeRefl(a: seq<Byte>, lo: int, hi: int)
    requires 0 <= lo <= hi <= |a|
    ensures Agree(a, a, lo, hi)
  {
    AgreeSlices(a, a, lo, hi);
  }

  /** Agreement on a range holds on every range inside it. */
  lemma AgreeWithin(a: seq<Byte>, b: seq<Byte>, lo: int, hi: int, lo2: int, hi2: int)
    requires |a| == |b| && 0 <= lo <= lo2 <= hi2 <= hi <= |a| && Agree(a, b, lo, hi)
    ensures Agree(a, b, lo2, hi2)
  {
    AgreeSlices(a, b, lo, hi);
    AgreeSlices(a, b, lo2, hi2);
    forall i | lo2 <= i < hi2
      ensures a[i] == b[i]
    {
      assert a[i] == a[lo..hi][i - lo] && b[i] == b[lo..hi][i - lo];
    }
    assert a[lo2..hi2] == b[lo2..hi2];
  }

  /** Replacing bytes [lo, hi) of `t` by `mid` changes those bytes only. */
  lemma Splice(t: seq<Byte>, lo: int, mid: seq<Byte>, hi: int)
    requires 0 <= lo <= hi <= |t| && |mid| == hi - lo
    ensures var r := t[..lo] + mid + t[hi..];
            |r| == |t| && Agree(r, t, 0, lo) && Agree(r, t, hi, |t|) && r[lo..hi] == mid
  {
    var r := t[..lo] + mid + t[hi..];
    forall i | 0 <= i < lo
      ensures r[i] == t[i]
    {
    }
    assert r[0..lo] == t[0..lo];
    forall i | hi <= i < |t|
      ensures r[i] == t[i]
    {
    }
    assert r[hi..|t|] == t[hi..|t|];
    assert r[lo..hi] == mid;
    AgreeSlices(r, t, 0, lo);
    AgreeSlices(r, t, hi, |t|);
  }

  /** Agreement on two adjacent ranges is agreement on their union. */
  lemma AgreeJoin(a: seq<Byte>, b: seq<Byte>, lo: int, mid: int, hi: int)
    requires |a| == |b| && 0 <= lo <= mid <= hi <= |a|
    requires Agree(a, b, lo, mid) && Agree(a, b, mid, hi)
    ensures Agree(a, b, lo, hi)
  {
    AgreeSlices(a, b, lo, mid);
    AgreeSlices(a, b, mid, hi);
    AgreeSlices(a, b, lo, hi);
    assert a[lo..hi] == a[lo..mid] + a[mid..hi];
    assert b[lo..hi] == b[lo..mid] + b[mid..hi];
  }

  // ---------------------------------------------------------------------
  // A run of writes, as a serializer issues them
  // ---------------------------------------------------------------------

  /** One accessor call that changes the page: `writeInt(at, v)` or
      `writeString(at, str, max)`. */
  datatype Write = PutInt(at: int, v: int) | PutStr(at: int, str: Str, max: int)

  /** The end of the bytes a write may change; they start at `w.at`. */
  function Hi(w: Write): int {
    match w
    case PutInt(at, _) => at + 4
    case PutStr(at, _, max) => at + max
  }

  /** A write whose bounds check passes. */
  predicate WriteOk(w: Write) {
    match w
    case PutInt(at, _) => IntFits(at)
    case PutStr(at, _, max) => SlotFits(at, max) && max >= 4
  }

  /** The page after one accepted write. */
  function Put(img: seq<Byte>, w: Write): (r: seq<Byte>)
    requires |img| == PAGE_SIZE && WriteOk(w)
    ensures |r| == PAGE_SIZE
    ensures Agree(r, img, 0, w.at) && Agree(r, img, Hi(w), PAGE_SIZE)
  {
    match w
    case PutInt(at, v) => WriteIntAt(img, at, v)
    case PutStr(at, str, max) => WriteStringAt(img, at, str, max)
  }

  /** Reading a write's place gives back what it wrote: the int as 32 bits,
      the string as its stored prefix. */
  predicate ReadsBack(g: seq<Byte>, w: Write)
    requires |g| == PAGE_SIZE && WriteOk(w)
  {
    match w
    case PutInt(at, v) => ReadIntAt(g, at) == DecodeInt(EncodeInt(v))
    case PutStr(at, str, max) => ReadStringAt(g, at, max) == StoredString(str, max)
  }

  lemma PutReads(img: seq<Byte>, w: Write)
    requires |img| == PAGE_SIZE && WriteOk(w)
    ensures ReadsBack(Put(img, w), w)
  {
    match w
    case PutInt(at, v) =>
    case PutStr(at, str, max) => ReadWriteStored(img, at, str, max);
  }

  /** A write reads back from any page that kept the bytes it wrote. */
  lemma ReadsBackLocal(g: seq<Byte>, h: seq<Byte>, w: Write)
    requires |g| == PAGE_SIZE && |h| == PAGE_SIZE && WriteOk(w)
    requires Agree(g, h, w.at, Hi(w)) && ReadsBack(h, w)
    ensures ReadsBack(g, w)
  {
    match w
    case PutInt(at, v) => ReadIntLocal(g, h, at);
    case PutStr(at, str, max) => ReadStringLocal(g, h, at, max);
  }

  /** Every write of the run is accepted. */
  predicate AllOk(ws: seq<Write>) {
    forall i :: 0 <= i < |ws| ==> WriteOk(ws[i])
  }

  /** Accepted writes, each starting where the previous one may end or later. */
  predicate Ascending(ws: seq<Write>) {
    AllOk(ws) && forall i :: 0 <= i < |ws| - 1 ==> Hi(ws[i]) <= ws[i + 1].at
  }

  lemma {:induction false} AscendingApart(ws: seq<Write>, i: int, j: int)
    requires Ascending(ws) && 0 <= i < j < |ws|
    ensures Hi(ws[i]) <= ws[j].at
    decreases j - i
  {
    if i + 1 < j {
      AscendingApart(ws, i, j - 1);
    }
  }

  lemma AscendingFront(ws: seq<Write>)
    requires Ascending(ws) && |ws| > 0
    ensures Ascending(ws[..|ws| - 1])
  {
    var front := ws[..|ws| - 1];
    assert forall i :: 0 <= i < |front| ==> front[i] == ws[i];
  }

  /** The page after a run of writes, in order. */
  function Apply(img: seq<Byte>, ws: seq<Write>): (r: seq<Byte>)
    requires |img| == PAGE_SIZE && AllOk(ws)
    ensures |r| == PAGE_SIZE
    decreases |ws|
  {
    if |ws| == 0 then img else Put(Apply(img, ws[..|ws| - 1]), ws[|ws| - 1])
  }

  /** Each write of an ascending run reads back from the page the whole run
      leaves: no later write touches its bytes. */
  lemma {:induction false} ApplyReads(img: seq<Byte>, ws: seq<Write>, k: int)
    requires |img| == PAGE_SIZE && Ascending(ws) && 0 <= k < |ws|
    ensures ReadsBack(Apply(img, ws), ws[k])
    decreases |ws|
  {
    var front := ws[..|ws| - 1];
    var last := ws[|ws| - 1];
    var before := Apply(img, front);
    if k == |ws| - 1 {
      PutReads(before, last);
    } else {
      AscendingFront(ws);
      assert front[k] == ws[k];
      ApplyReads(img, front, k);
      AscendingApart(ws, k, |ws| - 1);
      PutKeeps(before, last, ws[k]);
    }
  }

  /** A write leaves an earlier write below it readable. */
  lemma PutKeeps(img: seq<Byte>, w: Write, earlier: Write)
    requires |img| == PAGE_SIZE && WriteOk(w) && WriteOk(earlier)
    requires earlier.at <= Hi(earlier) <= w.at && ReadsBack(img, earlier)
    ensures ReadsBack(Put(img, w), earlier)
  {
    var r := Put(img, w);
    AgreeWithin(r, img, 0, w.at, earlier.at, Hi(earlier));
    ReadsBackLocal(r, img, earlier);
  }

  /** Every write of a stretch of an ascending run reads back from the page
      the whole run leaves. */
  lemma ApplyReadsRun(img: seq<Byte>, ws: seq<Write>, base: int, run: seq<Write>)
    requires |img| == PAGE_SIZE && Ascending(ws)
    requires 0 <= base && base + |run| <= |ws| && ws[base..base + |run|] == run
    ensures AllOk(run)
    ensures forall t :: 0 <= t < |run| ==> ReadsBack(Apply(img, ws), run[t])
  {
    forall t | 0 <= t < |run|
      ensures WriteOk(run[t]) && ReadsBack(Apply(img, ws), run[t])
    {
      ApplyReadsAt(img, ws, base + t, run[t]);
    }
  }

  lemma ApplyReadsAt(img: seq<Byte>, ws: seq<Write>, k: int, w: Write)
    requires |img| == PAGE_SIZE && Ascending(ws) && 0 <= k < |ws| && ws[k] == w
    ensures WriteOk(w) && ReadsBack(Apply(img, ws), w)
  {
    ApplyReads(img, ws, k);
  }

  /** Appending one write to a run. */
  lemma ApplyAppend(img: seq<Byte>, ws: seq<Write>, w: Write)
    requires |img| == PAGE_SIZE && AllOk(ws) && WriteOk(w)
    ensures AllOk(ws + [w]) && Apply(img, ws + [w]) == Put(Apply(img, ws), w)
  {
    assert (ws + [w])[..|ws|] == ws;
  }

  /** The run up to write `k` is the run before it followed by that write. */
  lemma ApplyStep(img: seq<Byte>, ws: seq<Write>, k: int)
    requires |img| == PAGE_SIZE && 0 <= k < |ws| && AllOk(ws[..k]) && WriteOk(ws[k])
    ensures AllOk(ws[..k + 1]) && Apply(img, ws[..k + 1]) == Put(Apply(img, ws[..k]), ws[k])
  {
    assert ws[..k + 1] == ws[..k] + [ws[k]];
    ApplyAppend(img, ws[..k], ws[k]);
  }

  /** Two runs one after the other are the run of both. */
  lemma {:induction false} ApplyConcat(img: seq<Byte>, a: seq<Write>, b: seq<Write>)
    requires |img| == PAGE_SIZE && AllOk(a) && AllOk(b)
    ensures AllOk(a + b) && Apply(Apply(img, a), b) == Apply(img, a + b)
    decreases |b|
  {
    if |b| == 0 {
      assert a + b == a;
    } else {
      var front := b[..|b| - 1];
      ApplyConcat(img, a, front);
      assert (a + b)[..|a + b| - 1] == a + front;
    }
  }

  /** Three runs one after the other are the run of all three. */
  lemma ApplyThree(img: seq<Byte>, a: seq<Write>, b: seq<Write>, c: seq<Write>)
    requires |img| == PAGE_SIZE && AllOk(a) && AllOk(b) && AllOk(c)
    ensures AllOk(a + b + c) && Apply(Apply(Apply(img, a), b), c) == Apply(img, a + b + c)
  {
    ApplyConcat(img, a, b);
    ApplyConcat(img, a + b, c);
  }

  /** A serialized page: its bytes, and whether the serializer finished. */
  datatype Image = Image(image: seq<Byte>, ok: bool)

  /** The length of the leading run of accepted writes: a serializer whose
      accessor throws at the first rejected write issues exactly these. */
  function OkRun(ws: seq<Write>): (n: nat)
    ensures n <= |ws| && AllOk(ws[..n]) && (n < |ws| ==> !WriteOk(ws[n]))
  {
    if |ws| == 0 || !WriteOk(ws[0]) then 0
    else
      var n := 1 + OkRun(ws[1..]);
      assert forall j :: 1 <= j < n ==> ws[..n][j] == ws[1..][..n - 1][j - 1];
      n
  }

  /** Any accepted prefix followed by a rejected write (or the end) is the
      leading run. */
  lemma {:induction false} OkRunIs(ws: seq<Write>, k: nat)
    requires k <= |ws| && AllOk(ws[..k]) && (k < |ws| ==> !WriteOk(ws[k]))
    ensures OkRun(ws) == k
    decreases k
  {
    if k > 0 {
      assert ws[..k][0] == ws[0];
      assert ws[1..][..k - 1] == ws[..k][1..];
      OkRunIs(ws[1..], k - 1);
    }
  }

  // ---------------------------------------------------------------------
  // The Page object
  // ---------------------------------------------------------------------

  class Page {
    const pageId: int
    /** The `ByteBuffer`; Java never replaces it, only its contents. */
    const data: array<Byte>
    var dirty: bool
    var pinCount: int

    /** The buffer has the page size; `data` never changes, so neither does this. */
    ghost predicate Valid() {
      data.Length == PAGE_SIZE
    }

    /** `new Page(pageId)`: a zero-filled, clean, unpinned page. */
    constructor (pageId: int)
      ensures Valid() && fresh(data)
      ensures this.pageId == pageId && data[..] == Zeros(PAGE_SIZE)
      ensures !dirty && pinCount == 0
    {
      this.pageId := pageId;
      data := new Byte[PAGE_SIZE](_ => 0);
      dirty := false;
      pinCount := 0;
      new;
      assert data[..] == Zeros(PAGE_SIZE);
    }

    /** `new Page(pageId, pageData)`: wraps the given bytes without copying. */
    constructor Wrap(pageId: int, pageData: array<Byte>)
      requires pageData.Length == PAGE_SIZE
      ensures Valid() && data == pageData
      ensures this.pageId == pageId && !dirty && pinCount == 0
    {
      this.pageId := pageId;
      data := pageData;
      dirty := false;
      pinCount := 0;
    }

    /** `pin()`: `pinCount++` on an `int`, wrapping past the largest int. */
    method Pin()
      modifies this`pinCount
      ensures pinCount == Wrap32(old(pinCount) + 1)
    {
      pinCount := Wrap32(pinCount + 1);
    }

    /** `unpin()`: `pinCount--` on an `int`, wrapping past the smallest int. */
    method Unpin()
      modifies this`pinCount
      ensures pinCount == Wrap32(old(pinCount) - 1)
    {
      pinCount := Wrap32(pinCount - 1);
    }

    /** `writeInt`: fails out of range; otherwise stores the four bytes and marks the page dirty. */
    method WriteInt(offset: int, value: int) returns (r: Outcome)
      requires Valid()
      modifies data, this`dirty
      ensures r == (if IntFits(offset) then Pass else Fail(OutOfBounds))
      ensures r.Pass? ==> data[..] == WriteIntAt(old(data[..]), offset, value) && dirty
      ensures r.Fail? ==> data[..] == old(data[..]) && dirty == old(dirty)
    {
      if offset < 0 || offset + 4 > PAGE_SIZE {
        return Fail(OutOfBounds);
      }
      var bs := EncodeInt(value);
      data[offset], data[offset + 1], data[offset + 2], data[offset + 3] := bs[0], bs[1], bs[2], bs[3];
      assert data[..] == WriteIntAt(old(data[..]), offset, value);
      dirty := true;
      r := Pass;
    }

    /** `readInt`: never fails; 0 when the offset is out of range. */
    method ReadInt(offset: int) returns (v: int)
      requires Valid()
      ensures v == ReadIntAt(data[..], offset)
      ensures IsInt32(v)
    {
      if offset < 0 || offset + 4 > PAGE_SIZE {
        return 0;
      }
      v := DecodeInt([data[offset], data[offset + 1], data[offset + 2], data[offset + 3]]);
      assert data[..][offset..offset + 4] == [data[offset], data[offset + 1], data[offset + 2], data[offset + 3]];
    }

    /** `writeString`, with its sums taken in `int` as Java takes them. A
        slot refused by the first checks fails before anything is written.
        With a negative stored length, or a payload that runs past the
        page, the length prefix is written, then `ByteBuffer.put` throws and
        the page stays as clean as it was. */
    method WriteString(offset: int, str: Str, maxLength: int) returns (r: Outcome)
      requires Valid()
      modifies data, this`dirty
      ensures r.Pass? <==> StringFits(offset, str, maxLength)
      ensures r.Pass? ==> data[..] == PutStringAt(old(data[..]), offset, str, StoredLength(str, maxLength)) && dirty
      ensures r.Pass? && SlotFits(offset, maxLength) && maxLength >= 4 ==>
                data[..] == WriteStringAt(old(data[..]), offset, str, maxLength)
      ensures r.Fail? ==> r.error == OutOfBounds && dirty == old(dirty)
      ensures r.Fail? && PrefixFits(offset, maxLength) ==>
                data[..] == WriteIntAt(old(data[..]), offset, StoredLength(str, maxLength))
      ensures r.Fail? && !PrefixFits(offset, maxLength) ==> data[..] == old(data[..])
    {
      if offset < 0 || Wrap32(offset + maxLength) > PAGE_SIZE {
        return Fail(OutOfBounds);
      }
      var length := Min(|str|, Wrap32(maxLength - 4));
      if Wrap32(offset + 4) > PAGE_SIZE {
        return Fail(OutOfBounds);
      }
      // `ByteBuffer.putInt` refuses an index with fewer than four bytes after it.
      var wasDirty := dirty;
      var w := WriteInt(offset, length);
      dirty := wasDirty;   // ByteBuffer.putInt does not touch the flag
      if w.Fail? {
        return Fail(OutOfBounds);
      }
      if Wrap32(offset + 4 + length) > PAGE_SIZE {
        return Fail(OutOfBounds);
      }
      // `ByteBuffer.put` refuses a negative length and one past the buffer's end.
      if length < 0 || offset + 4 + length > PAGE_SIZE {
        return Fail(OutOfBounds);
      }
      ghost var t := data[..];
      forall i | 0 <= i < length {
        data[offset + 4 + i] := str[i];
      }
      assert data[..] == t[..offset + 4] + str[..length] + t[offset + 4 + length..];
      dirty := true;
      r := Pass;
    }

    /** `readString`: "" for any malformed slot, the bound `maxLength - 4`
        taken in `int`. */
    method ReadString(offset: int, maxLength: int) returns (s: Str)
      requires Valid()
      ensures s == ReadStringAt(data[..], offset, maxLength)
    {
      if offset < 0 || offset + 4 > PAGE_SIZE {
        return [];
      }
      var length := ReadInt(offset);
      if length <= 0 || length > Wrap32(maxLength - 4) || offset + 4 + length > PAGE_SIZE {
        return [];
      }
      s := data[offset + 4..offset + 4 + length];
    }

    /** `clear`: zero-fills every byte and marks the page dirty. */
    method Clear()
      requires Valid()
      modifies data, this`dirty
      ensures data[..] == Zeros(PAGE_SIZE) && dirty
    {
      var i := 0;
      while i < PAGE_SIZE
        invariant 0 <= i <= PAGE_SIZE
        invariant forall j :: 0 <= j < i ==> data[j] == 0
      {
        data[i] := 0;
        i := i + 1;
      }
      assert data[..] == Zeros(PAGE_SIZE);
      dirty := true;
    }
  }

  /** Issues write `k` of a run of accepted writes through the page's own
      accessor, so that a serializer's run leaves the page at `Apply` of
      the run so far. */
  method Emit(page: Page, ghost base: seq<Byte>, ws: seq<Write>, k: int)
    requires page.Valid() && |base| == PAGE_SIZE && AllOk(ws) && 0 <= k < |ws|
    requires page.data[..] == Apply(base, ws[..k])
    modifies page.data, page`dirty
    ensures page.data[..] == Apply(base, ws[..k + 1]) && page.dirty
  {
    ApplyStep(base, ws, k);
    match ws[k] {
      case PutInt(at, v) =>
        var r := page.WriteInt(at, v);
      case PutStr(at, str, max) =>
        SlotStringFits(at, str, max);
        var r := page.WriteString(at, str, max);
    }
  }

  /** Issues a run of accepted writes in order: the page ends as `Apply`
      of the run to what it held. */
  method EmitAll(page: Page, ws: seq<Write>)
    requires page.Valid() && AllOk(ws)
    modifies page.data, page`dirty
    ensures page.data[..] == Apply(old(page.data[..]), ws)
    ensures page.dirty == (old(page.dirty) || |ws| > 0)
  {
    ghost var base := page.data[..];
    var i := 0;
    while i < |ws|
      invariant 0 <= i <= |ws|
      invariant page.data[..] == Apply(base, ws[..i])
      invariant page.dirty == (old(page.dirty) || i > 0)
    {
      Emit(page, base, ws, i);
      i := i + 1;
    }
    assert ws[..i] == ws;
  }

  /** Issues write `k` of a run through the page's own accessor, as a
      serializer does that lets the accessor's exception end it: the page
      moves on to `Apply` of one more write, or is left as it was and the
      run stops at `k`. */
  method IssueNext(page: Page, ghost base: seq<Byte>, ghost ws: seq<Write>, k: int, w: Write) returns (r: Outcome)
    requires page.Valid() && |base| == PAGE_SIZE && 0 <= k < |ws| && ws[k] == w
    requires AllOk(ws[..k]) && page.data[..] == Apply(base, ws[..k])
    requires w.PutStr? ==> 4 <= w.max <= PAGE_SIZE
    modifies page.data, page`dirty
    ensures r.Pass? <==> WriteOk(w)
    ensures r.Pass? ==> AllOk(ws[..k + 1]) && page.data[..] == Apply(base, ws[..k + 1]) && page.dirty
    ensures r.Fail? ==> r.error == OutOfBounds && OkRun(ws) == k
    ensures r.Fail? ==> page.data[..] == old(page.data[..]) && page.dirty == old(page.dirty)
  {
    match w {
      case PutInt(at, v) =>
        r := page.WriteInt(at, v);
      case PutStr(at, str, max) =>
        SlotStringFits(at, str, max);
        r := page.WriteString(at, str, max);
    }
    if r.Pass? {
      ApplyStep(base, ws, k);
    } else {
      OkRunIs(ws, k);
    }
  }

  /** Issues a run of writes through the page's own accessors, stopping
      at the first one `Page` rejects: the page ends as `Apply` of the
      leading run of accepted writes. */
  method IssueRun(page: Page, run: seq<Write>) returns (r: Outcome)
    requires page.Valid() && page.dirty
    requires forall i :: 0 <= i < |run| ==> run[i].PutStr? ==> 4 <= run[i].max <= PAGE_SIZE
    modifies page.data, page`dirty
    ensures page.dirty && page.data[..] == Apply(old(page.data[..]), run[..OkRun(run)])
    ensures r.Pass? <==> OkRun(run) == |run|
    ensures r.Fail? ==> r.error == OutOfBounds
  {
    ghost var base := page.data[..];
    r := Pass;
    var i := 0;
    while i < |run|
      invariant 0 <= i <= |run| && r.Pass?
      invariant AllOk(run[..i]) && page.data[..] == Apply(base, run[..i]) && page.dirty
    {
      r := IssueNext(page, base, run, i, run[i]);
      if r.Fail? {
        return;
      }
      i := i + 1;
    }
    assert run[..i] == run;
    OkRunIs(run, i);
  }
}

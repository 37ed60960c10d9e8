/** The page layout of a leaf (LeafNode.serialize / deserialize): a header
    of four ints — the tag 1, keyCount, parent and next leaf — at offset 0,
    then for each entry a 64-byte key slot, a 64-byte row-id slot, the value
    count and one 64-byte slot per value. Serialization stops with an error
    when fewer than 200 bytes remain before an entry or fewer than 64 before
    a value, leaving what it wrote so far on the page. */
module LeafCodec {
  import opened Types
  import opened Pages
  import opened NodeBase
  import opened Leaves

  const LEAF_TAG := 1
  const HEADER_END := 16
  const SLOT := 64
  const ENTRY_RESERVE := 200

  /** Where serialization has got to: the writes issued so far, the next
      offset, and whether it is still going. */
  datatype Layout = Layout(writes: seq<Write>, offset: int, ok: bool)

  /** Every write issued so far is accepted and lies, in order, below the
      next offset, which lies on the page. */
  predicate Tidy(l: Layout) {
    && Ascending(l.writes) && HEADER_END <= l.offset <= PAGE_SIZE
    && forall i :: 0 <= i < |l.writes| ==> Hi(l.writes[i]) <= l.offset
  }

  /** `w` issued at the offset, which then moves on to `next`. */
  function Issue(l: Layout, w: Write, next: int): (r: Layout)
    requires Tidy(l) && WriteOk(w) && l.offset <= w.at && Hi(w) <= next <= PAGE_SIZE
    ensures Tidy(r) && r.ok && r.offset == next
    ensures r.writes == l.writes + [w]
  {
    var r := Layout(l.writes + [w], next, true);
    assert forall i :: 0 <= i < |l.writes| ==> r.writes[i] == l.writes[i];
    r
  }

  /** The four header ints: the tag, keyCount, parent and next leaf. */
  function HeaderWrites(s: LeafState): seq<Write> {
    [PutInt(0, LEAF_TAG), PutInt(4, s.keyCount), PutInt(8, s.parent), PutInt(12, s.next)]
  }

  /** The slots of the first `k` values of an entry, from `start`. */
  function ValueSlots(start: int, vs: seq<Str>, k: int): (ws: seq<Write>)
    requires 0 <= k <= |vs|
    ensures |ws| == k
  {
    seq(k, j requires 0 <= j < k => PutStr(start + SLOT * j, vs[j], SLOT))
  }

  /** The first `k` values of an entry written from the offset, each after
      the check that 64 bytes remain. */
  function ValueWrites(l: Layout, vs: seq<Str>, k: int): (r: Layout)
    requires Tidy(l) && l.ok && 0 <= k <= |vs|
    ensures Tidy(r) && l.writes <= r.writes
    ensures r.ok ==> r.writes == l.writes + ValueSlots(l.offset, vs, k)
    ensures r.ok ==> r.offset == l.offset + SLOT * k
  {
    if k == 0 then
      assert l.writes + ValueSlots(l.offset, vs, 0) == l.writes;
      l
    else
      var c := ValueWrites(l, vs, k - 1);
      if !c.ok then c
      else if RemainingSpace(c.offset) < SLOT then c.(ok := false)
      else
        var w := PutStr(c.offset, vs[k - 1], SLOT);
        var r := Issue(c, w, c.offset + SLOT);
        assert ValueSlots(l.offset, vs, k) == ValueSlots(l.offset, vs, k - 1) + [w];
        AppendAssoc(l.writes, ValueSlots(l.offset, vs, k - 1), w);
        r
  }

  /** The value count `serialize` writes: the array's length, 0 for null. */
  function ValueCount(v: Option<seq<Str>>): nat {
    if v.Some? then |v.value| else 0
  }

  /** The writes of one entry at `o`: key slot, row-id slot, value count and
      the value slots. */
  function EntrySlots(o: int, e: Entry): (ws: seq<Write>)
    ensures |ws| == 3 + ValueCount(e.value)
  {
    [PutStr(o, e.key, SLOT), PutStr(o + 64, e.rowId, SLOT), PutInt(o + 128, ValueCount(e.value))]
      + (if e.value.Some? then ValueSlots(o + 132, e.value.value, |e.value.value|) else [])
  }

  /** One entry written at the offset, after the check that 200 bytes remain. */
  function EntryWrites(l: Layout, e: Entry): (r: Layout)
    requires Tidy(l) && l.ok
    ensures Tidy(r) && l.writes <= r.writes
    ensures r.ok ==> r.writes == l.writes + EntrySlots(l.offset, e)
    ensures r.ok ==> r.offset == l.offset + 132 + SLOT * ValueCount(e.value)
  {
    if RemainingSpace(l.offset) < ENTRY_RESERVE then l.(ok := false)
    else
      var o := l.offset;
      var l1 := Issue(l, PutStr(o, e.key, SLOT), o + 64);
      var l2 := Issue(l1, PutStr(o + 64, e.rowId, SLOT), o + 128);
      var l3 := Issue(l2, PutInt(o + 128, ValueCount(e.value)), o + 132);
      var head := [PutStr(o, e.key, SLOT), PutStr(o + 64, e.rowId, SLOT), PutInt(o + 128, ValueCount(e.value))];
      HeadAssoc(l.writes, head);
      if e.value.None? then
        assert EntrySlots(o, e) == head;
        l3
      else
        var r := ValueWrites(l3, e.value.value, |e.value.value|);
        assert r.ok ==> r.writes == l.writes + head + ValueSlots(o + 132, e.value.value, |e.value.value|);
        TailAssoc(l.writes, head, ValueSlots(o + 132, e.value.value, |e.value.value|));
        r
  }

  lemma AppendAssoc(p: seq<Write>, q: seq<Write>, w: Write)
    ensures p + q + [w] == p + (q + [w])
  {
  }

  lemma HeadAssoc(p: seq<Write>, head: seq<Write>)
    requires |head| == 3
    ensures p + [head[0]] + [head[1]] + [head[2]] == p + head
  {
    assert head == [head[0]] + [head[1]] + [head[2]];
  }

  lemma TailAssoc(p: seq<Write>, head: seq<Write>, tail: seq<Write>)
    ensures p + head + tail == p + (head + tail)
  {
  }

  /** Where the first `n` entries end when written one after the other. */
  function EntryEnd(s: LeafState, n: int): (o: int)
    requires Wf(s) && 0 <= n <= s.keyCount
    ensures o >= HEADER_END
  {
    if n == 0 then HEADER_END
    else EntryEnd(s, n - 1) + 132 + SLOT * ValueCount(s.vals[n - 1])
  }

  /** The writes of the header and the first `n` entries. */
  function EncodeEntries(s: LeafState, n: int): (r: Layout)
    requires Wf(s) && 0 <= n <= s.keyCount
    ensures Tidy(r) && HeaderWrites(s) <= r.writes
    ensures r.ok ==> r.offset == EntryEnd(s, n)
  {
    if n == 0 then Layout(HeaderWrites(s), HEADER_END, true)
    else
      var l := EncodeEntries(s, n - 1);
      if !l.ok then l
      else
        var r := EntryWrites(l, Entries(s)[n - 1]);
        PrefixTrans(HeaderWrites(s), l.writes, r.writes);
        r
  }

  lemma PrefixTrans(a: seq<Write>, b: seq<Write>, c: seq<Write>)
    requires a <= b && b <= c
    ensures a <= c
  {
    assert c[..|a|] == c[..|b|][..|a|];
  }

  /** A run is its prefix followed by the rest. */
  lemma PrefixRest(a: seq<Write>, b: seq<Write>)
    requires a <= b
    ensures a + b[|a|..] == b
  {
  }

  /** Once a value slot does not fit, the later values are not written. */
  lemma {:induction false} ValueWritesStop(l: Layout, vs: seq<Str>, k: int, m: int)
    requires Tidy(l) && l.ok && 0 <= k <= m <= |vs| && !ValueWrites(l, vs, k).ok
    ensures ValueWrites(l, vs, m) == ValueWrites(l, vs, k)
    decreases m
  {
    if m > k {
      ValueWritesStop(l, vs, k, m - 1);
    }
  }

  /** Once an entry does not fit, serialization stops there. */
  lemma {:induction false} EncodeStops(s: LeafState, n: int, m: int)
    requires Wf(s) && 0 <= n <= m <= s.keyCount && !EncodeEntries(s, n).ok
    ensures EncodeEntries(s, m) == EncodeEntries(s, n)
    decreases m
  {
    if m > n {
      EncodeStops(s, n, m - 1);
    }
  }

  /** `serialize`: the cleared page after every write the layout issues. */
  function EncodeLeaf(s: LeafState): (r: Image)
    requires Wf(s)
    ensures |r.image| == PAGE_SIZE
  {
    var l := EncodeEntries(s, s.keyCount);
    Image(Apply(Zeros(PAGE_SIZE), l.writes), l.ok)
  }

  /** The room `serialize` asks for, for the first `n` entries: 200 bytes
      left before each entry starts, and the whole entry, with one slot per
      value, on the page. */
  predicate FitsUpTo(s: LeafState, n: int)
    requires Wf(s) && 0 <= n <= s.keyCount
  {
    n == 0 ||
    (FitsUpTo(s, n - 1) && EntryEnd(s, n - 1) + ENTRY_RESERVE <= PAGE_SIZE && EntryEnd(s, n) <= PAGE_SIZE)
  }

  /** Every entry of the leaf has its room. */
  predicate Fits(s: LeafState)
    requires Wf(s)
  {
    FitsUpTo(s, s.keyCount)
  }

  /** The values of an entry are all written exactly when the last slot
      ends on the page. */
  lemma {:induction false} ValueWritesOk(l: Layout, vs: seq<Str>, k: int)
    requires Tidy(l) && l.ok && 0 <= k <= |vs|
    ensures ValueWrites(l, vs, k).ok <==> l.offset + SLOT * k <= PAGE_SIZE
    decreases k
  {
    if k > 0 {
      ValueWritesOk(l, vs, k - 1);
    }
  }

  /** An entry is written exactly when 200 bytes remain before it and the
      entry ends on the page. */
  lemma EntryWritesOk(l: Layout, e: Entry)
    requires Tidy(l) && l.ok
    ensures EntryWrites(l, e).ok <==>
              l.offset + ENTRY_RESERVE <= PAGE_SIZE && l.offset + 132 + SLOT * ValueCount(e.value) <= PAGE_SIZE
  {
    if RemainingSpace(l.offset) >= ENTRY_RESERVE && e.value.Some? {
      var o := l.offset;
      var l1 := Issue(l, PutStr(o, e.key, SLOT), o + 64);
      var l2 := Issue(l1, PutStr(o + 64, e.rowId, SLOT), o + 128);
      var l3 := Issue(l2, PutInt(o + 128, ValueCount(e.value)), o + 132);
      ValueWritesOk(l3, e.value.value, |e.value.value|);
    }
  }

  /** The header and the first `n` entries are written exactly when each
      of those entries has its room. */
  lemma {:induction false} EncodeEntriesOk(s: LeafState, n: int)
    requires Wf(s) && 0 <= n <= s.keyCount
    ensures EncodeEntries(s, n).ok <==> FitsUpTo(s, n)
    decreases n
  {
    if n > 0 {
      EncodeEntriesOk(s, n - 1);
      var l := EncodeEntries(s, n - 1);
      if l.ok {
        EntryWritesOk(l, Entries(s)[n - 1]);
      }
    }
  }

  /** `serialize` completes exactly when the leaf fits. */
  lemma EncodeOk(s: LeafState)
    requires Wf(s)
    ensures EncodeLeaf(s).ok <==> Fits(s)
  {
    EncodeEntriesOk(s, s.keyCount);
  }

  /** A leaf whose entries carry at most `v` values each fits when that
      many full entries, and the 68 bytes by which the 200-byte reserve
      exceeds an entry without values, fit after the header. */
  lemma FewValuesFit(s: LeafState, v: nat)
    requires Wf(s) && forall i :: 0 <= i < s.keyCount ==> ValueCount(s.vals[i]) <= v
    requires HEADER_END + s.keyCount * (132 + SLOT * v) + 68 <= PAGE_SIZE
    ensures Fits(s)
  {
    FewValuesFitUpTo(s, v, s.keyCount);
  }

  lemma {:induction false} FewValuesFitUpTo(s: LeafState, v: nat, n: int)
    requires Wf(s) && 0 <= n <= s.keyCount && forall i :: 0 <= i < s.keyCount ==> ValueCount(s.vals[i]) <= v
    requires HEADER_END + n * (132 + SLOT * v) + 68 <= PAGE_SIZE
    ensures FitsUpTo(s, n) && EntryEnd(s, n) <= HEADER_END + n * (132 + SLOT * v)
    decreases n
  {
    if n > 0 {
      var w := 132 + SLOT * v;
      assert (n - 1) * w + w == n * w;
      FewValuesFitUpTo(s, v, n - 1);
      assert EntryEnd(s, n) == EntryEnd(s, n - 1) + 132 + SLOT * ValueCount(s.vals[n - 1]);
    }
  }

  /** A leaf of one entry fits exactly when that entry has at most 61
      values. */
  lemma LoneEntryFits(s: LeafState)
    requires Wf(s) && s.keyCount == 1
    ensures Fits(s) <==> ValueCount(s.vals[0]) <= 61
  {
    assert Fits(s) == FitsUpTo(s, 1) && FitsUpTo(s, 0);
    assert EntryEnd(s, 0) == HEADER_END;
    assert EntryEnd(s, 1) == HEADER_END + 132 + SLOT * ValueCount(s.vals[0]);
  }

  /** Ten entries of five values each, as `calculateMaxKeys` allows on the
      default page, do not fit: the tenth entry finds fewer than 200 bytes. */
  lemma TenFiveValueEntriesOverflow(s: LeafState)
    requires Wf(s) && s.keyCount == 10 && forall i :: 0 <= i < 10 ==> ValueCount(s.vals[i]) == 5
    ensures !Fits(s)
  {
    EntryEndExact(s, 5, 9);
    assert EntryEnd(s, 9) + ENTRY_RESERVE > PAGE_SIZE;
  }

  /** The first `n` entries of exactly `v` values each end after `n` such entries. */
  lemma {:induction false} EntryEndExact(s: LeafState, v: nat, n: int)
    requires Wf(s) && 0 <= n <= s.keyCount && forall i :: 0 <= i < n ==> ValueCount(s.vals[i]) == v
    ensures EntryEnd(s, n) == HEADER_END + n * (132 + SLOT * v)
    decreases n
  {
    if n > 0 {
      EntryEndExact(s, v, n - 1);
    }
  }

  // ---------------------------------------------------------------------
  // deserialize
  // ---------------------------------------------------------------------

  /** `count` value slots read from `start`. */
  function DecodeValues(img: seq<Byte>, start: int, count: nat): (vs: seq<Str>)
    requires |img| == PAGE_SIZE
    ensures |vs| == count
  {
    seq(count, j => ReadStringAt(img, start + SLOT * j, SLOT))
  }

  /** Entry `i` read from offset `o` into `s`, and the offset after it. A
      value count that is not positive leaves the slot's value array as it
      was. */
  function ReadEntryAt(img: seq<Byte>, s: LeafState, i: int, o: int): (r: (LeafState, int))
    requires |img| == PAGE_SIZE && 0 <= i < |s.keys| && |s.rowIds| == |s.keys| && |s.vals| == |s.keys|
  {
    var vc := ReadIntAt(img, o + 128);
    (s.(keys := s.keys[i := Some(ReadStringAt(img, o, SLOT))],
        rowIds := s.rowIds[i := Some(ReadStringAt(img, o + 64, SLOT))],
        vals := if vc > 0 then s.vals[i := Some(DecodeValues(img, o + 132, vc))] else s.vals),
     o + 132 + (if vc > 0 then SLOT * vc else 0))
  }

  /** The node after the first `n` entries of the page have been read into
      it, and the offset reached. */
  function DecodeEntries(img: seq<Byte>, s0: LeafState, n: nat): (r: (LeafState, int))
    requires |img| == PAGE_SIZE
    requires n <= |s0.keys| && |s0.rowIds| == |s0.keys| && |s0.vals| == |s0.keys|
    ensures |r.0.keys| == |s0.keys| && |r.0.rowIds| == |s0.keys| && |r.0.vals| == |s0.keys|
    ensures r.0.keyCount == s0.keyCount && r.0.parent == s0.parent && r.0.next == s0.next
    ensures forall i :: 0 <= i < n ==> r.0.keys[i].Some? && r.0.rowIds[i].Some?
  {
    if n == 0 then (s0, HEADER_END)
    else
      var (s, o) := DecodeEntries(img, s0, n - 1);
      ReadEntryAt(img, s, n - 1, o)
  }

  /** `deserialize` into an existing leaf: the header fields, then entries
      while both `i < keyCount` and `i < maxKeys`. */
  function DecodeLeafInto(s0: LeafState, img: seq<Byte>): (s: LeafState)
    requires |img| == PAGE_SIZE && |s0.rowIds| == |s0.keys| && |s0.vals| == |s0.keys|
    ensures |s.keys| == |s0.keys| && |s.rowIds| == |s0.keys| && |s.vals| == |s0.keys|
    ensures s.keyCount == ReadIntAt(img, 4) && s.parent == ReadIntAt(img, 8) && s.next == ReadIntAt(img, 12)
  {
    var kc := ReadIntAt(img, 4);
    var t := s0.(keyCount := kc, parent := ReadIntAt(img, 8), next := ReadIntAt(img, 12));
    DecodeEntries(img, t, Min(Max(kc, 0), |s0.keys|)).0
  }

  /** A fresh `LeafNode(pageId, maxKeys)` deserialized from the page, as the
      tree engine reads leaves. */
  function DecodeLeaf(img: seq<Byte>, maxKeys: nat): (s: LeafState)
    requires |img| == PAGE_SIZE && IsInt32(maxKeys)
    ensures |s.keys| == maxKeys
  {
    DecodeLeafInto(Fresh(maxKeys), img)
  }

  /** Deserializing into a node from a page whose key count fits the
      node's arrays gives a well-formed leaf. */
  lemma DecodeIntoWf(s0: LeafState, img: seq<Byte>)
    requires |img| == PAGE_SIZE && |s0.rowIds| == |s0.keys| && |s0.vals| == |s0.keys| && IsInt32(|s0.keys|)
    requires 0 <= ReadIntAt(img, 4) <= |s0.keys|
    ensures Wf(DecodeLeafInto(s0, img))
  {
    var s := DecodeLeafInto(s0, img);
    assert NonNull(s.keys, s.keyCount) && NonNull(s.rowIds, s.keyCount);
  }

  /** Any page whose key count lies in [0, maxKeys] reads as a well-formed leaf. */
  lemma DecodeLeafWf(img: seq<Byte>, maxKeys: nat)
    requires |img| == PAGE_SIZE && IsInt32(maxKeys)
    requires 0 <= ReadIntAt(img, 4) <= maxKeys
    ensures Wf(DecodeLeaf(img, maxKeys))
  {
    var s := DecodeLeaf(img, maxKeys);
    assert NonNull(s.keys, s.keyCount) && NonNull(s.rowIds, s.keyCount);
  }

  // ---------------------------------------------------------------------
  // The round trip
  // ---------------------------------------------------------------------

  /** What a string slot reads back as. */
  function Kept(str: Str): Str {
    StoredString(str, SLOT)
  }

  /** What a value array reads back as: null when it was null or empty,
      otherwise each value as its slot reads back. */
  function KeptValues(v: Option<seq<Str>>): Option<seq<Str>> {
    if v.None? || |v.value| == 0 then None
    else Some(seq(|v.value|, j requires 0 <= j < |v.value| => Kept(v.value[j])))
  }

  /** A fresh leaf holding the header fields of `s` and its first `n`
      entries as the page reads them back. */
  function KeptPrefix(s: LeafState, n: int): (r: LeafState)
    requires Wf(s) && 0 <= n <= s.keyCount
  {
    var m := |s.keys|;
    LeafState(s.keyCount, s.parent, s.next,
              seq(m, i requires 0 <= i < m => if i < n then Some(Kept(s.keys[i].value)) else None),
              seq(m, i requires 0 <= i < m => if i < n then Some(Kept(s.rowIds[i].value)) else None),
              seq(m, i requires 0 <= i < m => if i < n then KeptValues(s.vals[i]) else None))
  }

  /** The leaf as a fresh node reads it back from its serialized page. */
  function KeptLeaf(s: LeafState): LeafState
    requires Wf(s)
  {
    KeptPrefix(s, s.keyCount)
  }

  /** The header ints read back from the page of any run that starts with
      the header writes. */
  lemma HeaderReads(s: LeafState, ws: seq<Write>)
    requires Wf(s) && Ascending(ws) && HeaderWrites(s) <= ws
    ensures var g := Apply(Zeros(PAGE_SIZE), ws);
            ReadIntAt(g, 0) == LEAF_TAG && ReadIntAt(g, 4) == s.keyCount &&
            ReadIntAt(g, 8) == s.parent && ReadIntAt(g, 12) == s.next
  {
    ApplyReadsRun(Zeros(PAGE_SIZE), ws, 0, HeaderWrites(s));
    assert ReadsBack(Apply(Zeros(PAGE_SIZE), ws), HeaderWrites(s)[1]);
    assert ReadsBack(Apply(Zeros(PAGE_SIZE), ws), HeaderWrites(s)[2]);
    assert ReadsBack(Apply(Zeros(PAGE_SIZE), ws), HeaderWrites(s)[3]);
    assert ReadsBack(Apply(Zeros(PAGE_SIZE), ws), HeaderWrites(s)[0]);
    DecodeEncodeInt(LEAF_TAG);
    DecodeEncodeInt(s.keyCount);
    DecodeEncodeInt(s.parent);
    DecodeEncodeInt(s.next);
  }

  /** Value slots that each read back as their value read back, together,
      as the value array. */
  lemma DecodeValuesKept(g: seq<Byte>, start: int, vs: seq<Str>)
    requires |g| == PAGE_SIZE && |vs| > 0
    requires forall j :: 0 <= j < |vs| ==> ReadStringAt(g, start + SLOT * j, SLOT) == Kept(vs[j])
    ensures KeptValues(Some(vs)) == Some(DecodeValues(g, start, |vs|))
  {
    var d := DecodeValues(g, start, |vs|);
    var k := KeptValues(Some(vs)).value;
    assert forall j :: 0 <= j < |vs| ==> d[j] == k[j];
    assert d == k;
  }

  /** Entry `i` of `s` can be read back from `g` at the place where it was
      written, in its stored form. */
  predicate EntryStored(g: seq<Byte>, s: LeafState, i: int)
    requires |g| == PAGE_SIZE && Wf(s) && 0 <= i < s.keyCount
  {
    var o := EntryEnd(s, i);
    var vc := ValueCount(s.vals[i]);
    ReadStringAt(g, o, SLOT) == Kept(s.keys[i].value) &&
    ReadStringAt(g, o + 64, SLOT) == Kept(s.rowIds[i].value) &&
    ReadIntAt(g, o + 128) == vc &&
    (vc > 0 ==> KeptValues(s.vals[i]) == Some(DecodeValues(g, o + 132, vc)))
  }

  /** The layouts of fewer entries are prefixes of the layouts of more, and
      a layout that fitted had every shorter one fit. */
  lemma {:induction false} EntriesPrefix(s: LeafState, m: int, n: int)
    requires Wf(s) && 0 <= m <= n <= s.keyCount && EncodeEntries(s, n).ok
    ensures EncodeEntries(s, m).ok
    ensures EncodeEntries(s, m).writes <= EncodeEntries(s, n).writes
    decreases n - m
  {
    if m < n {
      EntriesPrefix(s, m, n - 1);
      PrefixTrans(EncodeEntries(s, m).writes, EncodeEntries(s, n - 1).writes, EncodeEntries(s, n).writes);
    }
  }

  /** The writes of entry `i` follow the writes of the entries before it. */
  lemma EntryRun(s: LeafState, i: int)
    requires Wf(s) && 0 <= i < s.keyCount && EncodeEntries(s, i + 1).ok
    ensures EncodeEntries(s, i).ok
    ensures EncodeEntries(s, i + 1).writes ==
              EncodeEntries(s, i).writes + EntrySlots(EntryEnd(s, i), Entries(s)[i])
  {
  }

  /** Entry `i` reads back from the page of any ascending run that starts
      with the layout of the first `i + 1` entries. */
  lemma EntryStoredIn(s: LeafState, i: int, ws: seq<Write>)
    requires Wf(s) && 0 <= i < s.keyCount && Ascending(ws) && EncodeEntries(s, i + 1).ok
    requires EncodeEntries(s, i + 1).writes <= ws
    ensures EntryStored(Apply(Zeros(PAGE_SIZE), ws), s, i)
  {
    var g := Apply(Zeros(PAGE_SIZE), ws);
    var o := EntryEnd(s, i);
    var e := Entries(s)[i];
    var run := EntrySlots(o, e);
    var base := |EncodeEntries(s, i).writes|;
    EntryRun(s, i);
    assert ws[base..base + |run|] == run by {
      var q := EncodeEntries(s, i + 1).writes;
      assert ws[base..base + |run|] == q[base..];
      assert q[base..] == run;
    }
    ApplyReadsRun(Zeros(PAGE_SIZE), ws, base, run);
    assert o + 132 + SLOT * ValueCount(e.value) == EntryEnd(s, i + 1) <= PAGE_SIZE;
    SlotsRead(g, o, e, run);
  }

  /** What reading back the writes of one entry means in entry terms. */
  lemma SlotsRead(g: seq<Byte>, o: int, e: Entry, run: seq<Write>)
    requires |g| == PAGE_SIZE && run == EntrySlots(o, e) && AllOk(run)
    requires 0 <= o && o + 132 + SLOT * ValueCount(e.value) <= PAGE_SIZE
    requires forall t :: 0 <= t < |run| ==> ReadsBack(g, run[t])
    ensures ReadStringAt(g, o, SLOT) == Kept(e.key)
    ensures ReadStringAt(g, o + 64, SLOT) == Kept(e.rowId)
    ensures ReadIntAt(g, o + 128) == ValueCount(e.value)
    ensures ValueCount(e.value) > 0 ==>
              KeptValues(e.value) == Some(DecodeValues(g, o + 132, ValueCount(e.value)))
  {
    HeadRead(g, o, e, run[0], run[1], run[2]);
    if ValueCount(e.value) > 0 {
      ValueSlotsRead(g, o + 132, e.value.value, run[3..]);
    }
  }

  /** The key, row id and value count of an entry, read back. */
  lemma HeadRead(g: seq<Byte>, o: int, e: Entry, k: Write, r: Write, c: Write)
    requires |g| == PAGE_SIZE && 0 <= o && o + 132 + SLOT * ValueCount(e.value) <= PAGE_SIZE
    requires k == PutStr(o, e.key, SLOT) && r == PutStr(o + 64, e.rowId, SLOT)
    requires c == PutInt(o + 128, ValueCount(e.value))
    requires WriteOk(k) && WriteOk(r) && WriteOk(c)
    requires ReadsBack(g, k) && ReadsBack(g, r) && ReadsBack(g, c)
    ensures ReadStringAt(g, o, SLOT) == Kept(e.key)
    ensures ReadStringAt(g, o + 64, SLOT) == Kept(e.rowId)
    ensures ReadIntAt(g, o + 128) == ValueCount(e.value)
  {
    DecodeEncodeInt(ValueCount(e.value));
  }

  /** The value slots of an entry, read back, as its value array. */
  lemma ValueSlotsRead(g: seq<Byte>, start: int, vs: seq<Str>, run: seq<Write>)
    requires |g| == PAGE_SIZE && |vs| > 0 && run == ValueSlots(start, vs, |vs|) && AllOk(run)
    requires forall t :: 0 <= t < |run| ==> ReadsBack(g, run[t])
    ensures KeptValues(Some(vs)) == Some(DecodeValues(g, start, |vs|))
  {
    forall j | 0 <= j < |vs|
      ensures ReadStringAt(g, start + SLOT * j, SLOT) == Kept(vs[j])
    {
      assert ReadsBack(g, run[j]);
    }
    DecodeValuesKept(g, start, vs);
  }

  /** One more entry read back, spelled out. */
  lemma DecodeStep(g: seq<Byte>, s0: LeafState, n: nat, t: LeafState, o: int, vc: int)
    requires |g| == PAGE_SIZE && 0 < n <= |s0.keys| && |s0.rowIds| == |s0.keys| && |s0.vals| == |s0.keys|
    requires DecodeEntries(g, s0, n - 1).0 == t && DecodeEntries(g, s0, n - 1).1 == o
    requires vc == ReadIntAt(g, o + 128)
    ensures DecodeEntries(g, s0, n).1 == o + 132 + (if vc > 0 then SLOT * vc else 0)
    ensures DecodeEntries(g, s0, n).0 ==
              t.(keys := t.keys[n - 1 := Some(ReadStringAt(g, o, SLOT))],
                 rowIds := t.rowIds[n - 1 := Some(ReadStringAt(g, o + 64, SLOT))],
                 vals := if vc > 0 then t.vals[n - 1 := Some(DecodeValues(g, o + 132, vc))] else t.vals)
  {
  }

  /** The stored form of one more entry. */
  lemma KeptStep(s: LeafState, n: int)
    requires Wf(s) && 0 < n <= s.keyCount
    ensures var t := KeptPrefix(s, n - 1);
            KeptPrefix(s, n) ==
              t.(keys := t.keys[n - 1 := Some(Kept(s.keys[n - 1].value))],
                 rowIds := t.rowIds[n - 1 := Some(Kept(s.rowIds[n - 1].value))],
                 vals := if ValueCount(s.vals[n - 1]) > 0 then t.vals[n - 1 := KeptValues(s.vals[n - 1])]
                         else t.vals)
  {
    var t := KeptPrefix(s, n - 1);
    var k := KeptPrefix(s, n);
    assert k.keys == t.keys[n - 1 := Some(Kept(s.keys[n - 1].value))];
    assert k.rowIds == t.rowIds[n - 1 := Some(Kept(s.rowIds[n - 1].value))];
    if ValueCount(s.vals[n - 1]) > 0 {
      assert k.vals == t.vals[n - 1 := KeptValues(s.vals[n - 1])];
    } else {
      assert k.vals == t.vals;
    }
  }

  /** Reading the first `n` entries back from a page on which each can be
      read back gives their stored form, and ends where they end. */
  lemma {:induction false} DecodeKept(s: LeafState, n: int, g: seq<Byte>)
    requires Wf(s) && 0 <= n <= s.keyCount && |g| == PAGE_SIZE
    requires forall i :: 0 <= i < n ==> EntryStored(g, s, i)
    ensures DecodeEntries(g, KeptPrefix(s, 0), n).0 == KeptPrefix(s, n)
    ensures DecodeEntries(g, KeptPrefix(s, 0), n).1 == EntryEnd(s, n)
    decreases n
  {
    if n > 0 {
      DecodeKept(s, n - 1, g);
      DecodeNext(s, n, g);
    }
  }

  /** One more stored entry read back extends the stored prefix by one. */
  lemma DecodeNext(s: LeafState, n: int, g: seq<Byte>)
    requires Wf(s) && 0 < n <= s.keyCount && |g| == PAGE_SIZE && EntryStored(g, s, n - 1)
    requires DecodeEntries(g, KeptPrefix(s, 0), n - 1).0 == KeptPrefix(s, n - 1)
    requires DecodeEntries(g, KeptPrefix(s, 0), n - 1).1 == EntryEnd(s, n - 1)
    ensures DecodeEntries(g, KeptPrefix(s, 0), n).0 == KeptPrefix(s, n)
    ensures DecodeEntries(g, KeptPrefix(s, 0), n).1 == EntryEnd(s, n)
  {
    var o := EntryEnd(s, n - 1);
    var vc := ValueCount(s.vals[n - 1]);
    DecodeStep(g, KeptPrefix(s, 0), n, KeptPrefix(s, n - 1), o, vc);
    KeptStep(s, n);
  }

  /** `deserialize` after a successful `serialize` gives back every entry in
      its stored form, and the header fields exactly. */
  lemma LeafRoundTrip(s: LeafState)
    requires Wf(s) && EncodeLeaf(s).ok
    ensures DecodeLeaf(EncodeLeaf(s).image, |s.keys|) == KeptLeaf(s)
  {
    HeaderReads(s, EncodeEntries(s, s.keyCount).writes);
    AllStored(s);
    DecodeStored(s, EncodeLeaf(s).image);
  }

  /** A page from which the header and every entry of `s` read back reads
      back as the stored form of `s`. */
  lemma DecodeStored(s: LeafState, g: seq<Byte>)
    requires Wf(s) && |g| == PAGE_SIZE
    requires ReadIntAt(g, 4) == s.keyCount && ReadIntAt(g, 8) == s.parent && ReadIntAt(g, 12) == s.next
    requires forall i :: 0 <= i < s.keyCount ==> EntryStored(g, s, i)
    ensures DecodeLeaf(g, |s.keys|) == KeptLeaf(s)
  {
    var t := Fresh(|s.keys|).(keyCount := s.keyCount, parent := s.parent, next := s.next);
    assert t == KeptPrefix(s, 0);
    DecodeKept(s, s.keyCount, g);
  }

  /** After a successful `serialize` every entry reads back from the page. */
  lemma AllStored(s: LeafState)
    requires Wf(s) && EncodeLeaf(s).ok
    ensures forall i :: 0 <= i < s.keyCount ==> EntryStored(EncodeLeaf(s).image, s, i)
  {
    var ws := EncodeEntries(s, s.keyCount).writes;
    forall i | 0 <= i < s.keyCount
      ensures EntryStored(EncodeLeaf(s).image, s, i)
    {
      EntriesPrefix(s, i + 1, s.keyCount);
      EntryStoredIn(s, i, ws);
    }
  }

  /** Even when `serialize` runs out of space, the page keeps the header:
      reading it back gives the same key count, parent and next leaf, and a
      well-formed leaf. */
  lemma FailedEncodeKeepsHeader(s: LeafState)
    requires Wf(s)
    ensures var d := DecodeLeaf(EncodeLeaf(s).image, |s.keys|);
            Wf(d) && d.keyCount == s.keyCount && d.parent == s.parent && d.next == s.next
    ensures ReadIntAt(EncodeLeaf(s).image, 0) == LEAF_TAG
  {
    HeaderReads(s, EncodeEntries(s, s.keyCount).writes);
    DecodeLeafWf(EncodeLeaf(s).image, |s.keys|);
  }

  // ---------------------------------------------------------------------
  // What a leaf page holds
  // ---------------------------------------------------------------------

  /** The key slots of a leaf as a page holds them: every key up to the key
      count fits its slot, and every slot after it is null. */
  predicate KeysKept(s: LeafState)
    requires Wf(s)
  {
    forall i :: 0 <= i < |s.keys| ==>
      if i < s.keyCount then |s.keys[i].value| <= SLOT - 4 else s.keys[i].None?
  }

  /** A value array as a page holds it: null, or non-empty with every value
      fitting its slot. */
  predicate ValuesKept(v: Option<seq<Str>>) {
    v.Some? ==> |v.value| > 0 && forall j :: 0 <= j < |v.value| ==> |v.value[j]| <= SLOT - 4
  }

  /** A leaf as `deserialize` leaves it: its keys as a page holds them, and
      likewise every row id and value array, with null after the key count. */
  predicate AsStored(s: LeafState)
    requires Wf(s)
  {
    && KeysKept(s)
    && forall i :: 0 <= i < |s.keys| ==>
         if i < s.keyCount then |s.rowIds[i].value| <= SLOT - 4 && ValuesKept(s.vals[i])
         else s.rowIds[i].None? && s.vals[i].None?
  }

  /** A string slot keeps the first 60 bytes. */
  lemma KeptIsPrefix(str: Str)
    ensures Kept(str) == Prefix(str, SLOT - 4)
  {
  }

  /** What a page reads back is a page image, with the same key count,
      parent, next link and array length; its key slots hold the stored
      prefixes. */
  lemma KeptIsStored(s: LeafState)
    requires Wf(s)
    ensures var k := KeptLeaf(s);
            && Wf(k) && AsStored(k)
            && k.keyCount == s.keyCount && k.parent == s.parent && k.next == s.next
            && |k.keys| == |s.keys|
            && forall i :: 0 <= i < s.keyCount ==> k.keys[i] == Some(Kept(s.keys[i].value))
  {
    var k := KeptLeaf(s);
    forall i | 0 <= i < s.keyCount
      ensures ValuesKept(k.vals[i])
    {
      var v := s.vals[i];
      if v.Some? && |v.value| > 0 {
        assert k.vals[i].value == seq(|v.value|, j requires 0 <= j < |v.value| => Kept(v.value[j]));
      }
    }
  }

  /** A page image reads back as itself. */
  lemma StoredIsKept(s: LeafState)
    requires Wf(s) && AsStored(s)
    ensures KeptLeaf(s) == s
  {
    var k := KeptLeaf(s);
    forall i | 0 <= i < |s.keys|
      ensures k.keys[i] == s.keys[i] && k.rowIds[i] == s.rowIds[i] && k.vals[i] == s.vals[i]
    {
      if i < s.keyCount && s.vals[i].Some? {
        var v := s.vals[i].value;
        assert k.vals[i].value == v;
      }
    }
    assert k.keys == s.keys && k.rowIds == s.rowIds && k.vals == s.vals;
  }

  /** Reading back a leaf whose parent was changed changes only the parent. */
  lemma KeptWithParent(s: LeafState, parent: int)
    requires Wf(s) && IsInt32(parent)
    ensures KeptLeaf(s.(parent := parent)) == KeptLeaf(s).(parent := parent)
  {
  }

  /** Cutting keys to their slots keeps a ranked leaf ranked. */
  lemma KeptRanked(s: LeafState)
    requires Ranked(s)
    ensures Ranked(KeptLeaf(s))
  {
    var k := KeptLeaf(s);
    KeptIsStored(s);
    forall i, j | 0 <= i < j < k.keyCount
      ensures !Less(k.keys[j].value, k.keys[i].value)
    {
      PrefixKeepsOrder(s.keys[i].value, s.keys[j].value, SLOT - 4);
    }
  }

  /** `removeKey` keeps a page image a page image. */
  lemma RemoveStored(s: LeafState, key: Str)
    requires Wf(s) && AsStored(s)
    ensures AsStored(Remove(s, key).0)
  {
    var p := SearchPos(s, key);
    if FoundAt(s, key, p) {
      var r := Remove(s, key).0;
      forall i | 0 <= i < |r.keys|
        ensures if i < r.keyCount then |r.keys[i].value| <= SLOT - 4 && |r.rowIds[i].value| <= SLOT - 4
                                      && ValuesKept(r.vals[i])
                else r.keys[i].None? && r.rowIds[i].None? && r.vals[i].None?
      {
        if p <= i < r.keyCount {
          assert r.keys[i] == s.keys[i + 1] && r.rowIds[i] == s.rowIds[i + 1] && r.vals[i] == s.vals[i + 1];
        }
      }
    }
  }

  /** `insertKeyValue` of a key that fits its slot keeps every key slot as
      a page holds it. */
  lemma InsertKeysKept(s: LeafState, key: Str, value: Option<seq<Str>>, rowId: Str)
    requires Wf(s) && KeysKept(s) && !IsFull(s) && |key| <= SLOT - 4
    ensures KeysKept(Insert(s, key, value, rowId).value)
  {
    var p := SearchPos(s, key);
    if !FoundAt(s, key, p) {
      var r := Insert(s, key, value, rowId).value;
      forall i | 0 <= i < |r.keys|
        ensures if i < r.keyCount then |r.keys[i].value| <= SLOT - 4 else r.keys[i].None?
      {
        if p < i < r.keyCount {
          assert r.keys[i] == s.keys[i - 1];
        }
      }
    }
  }

  /** `split` keeps every key slot as a page holds it. */
  lemma SplitKeysKept(s: LeafState)
    requires Wf(s) && KeysKept(s) && s.keyCount >= 2
    ensures KeysKept(Split(s).value.0) && KeysKept(Split(s).value.1)
  {
    var (left, right) := Split(s).value;
    var mid := s.keyCount / 2;
    forall i | 0 <= i < |right.keys|
      ensures if i < right.keyCount then |right.keys[i].value| <= SLOT - 4 else right.keys[i].None?
    {
      if i < right.keyCount {
        assert right.keys[i] == s.keys[mid + i];
      }
    }
  }

  /** When no key is cut, the page reads back the same keys. */
  lemma KeptKeys(r: LeafState)
    requires Wf(r) && KeysKept(r)
    ensures KeptLeaf(r).keys == r.keys && KeptLeaf(r).keyCount == r.keyCount
  {
    var k := KeptLeaf(r);
    assert forall i :: 0 <= i < |r.keys| ==> k.keys[i] == r.keys[i];
  }

  /** When no key is cut, an ordered leaf reads back ordered. */
  lemma KeptLeafOrdered(t: LeafState)
    requires Ordered(t) && KeysKept(t)
    ensures Ordered(KeptLeaf(t))
  {
    KeptKeys(t);
    KeptIsStored(t);
  }

  /** A `search` answer with its value array as the page reads it back. */
  function KeptFound(found: seq<Option<seq<Str>>>): (r: seq<Option<seq<Str>>>)
    ensures |r| == |found|
  {
    seq(|found|, i requires 0 <= i < |found| => KeptValues(found[i]))
  }

  /** When no key is cut, `search` on the page read back finds what it
      found before, with the value array as the page reads it back. */
  lemma SearchKept(r: LeafState, k: Str)
    requires Wf(r) && KeysKept(r)
    ensures Search(KeptLeaf(r), k) == KeptFound(Search(r, k))
  {
    KeptKeys(r);
  }

  /** On a page image every value array already reads back as itself. */
  lemma StoredFound(s: LeafState, k: Str)
    requires Wf(s) && AsStored(s)
    ensures KeptFound(Search(s, k)) == Search(s, k)
  {
    StoredIsKept(s);
    SearchKept(s, k);
  }

  /** A key longer than its slot is never found on a leaf whose keys fit. */
  lemma LongKeyAbsent(t: LeafState, key: Str)
    requires Wf(t) && KeysKept(t) && |key| > SLOT - 4
    ensures Search(t, key) == []
  {
  }

  /** An entry as a page reads it back. */
  function KeptEntry(e: Entry): Entry {
    Entry(Kept(e.key), Kept(e.rowId), KeptValues(e.value))
  }

  function KeptEntries(es: seq<Entry>): (r: seq<Entry>)
    ensures |r| == |es| && forall i :: 0 <= i < |es| ==> r[i] == KeptEntry(es[i])
  {
    seq(|es|, i requires 0 <= i < |es| => KeptEntry(es[i]))
  }

  /** The entries of the leaf read back are its entries read back. */
  lemma EntriesKept(s: LeafState)
    requires Wf(s)
    ensures Entries(KeptLeaf(s)) == KeptEntries(Entries(s))
  {
    KeptIsStored(s);
  }

  /** Every entry of a leaf whose keys fit has a key that fits. */
  lemma EntriesFit(s: LeafState)
    requires Wf(s) && KeysKept(s)
    ensures forall i :: 0 <= i < |Entries(s)| ==> |Entries(s)[i].key| <= SLOT - 4
  {
  }

  /** With every key short enough for its slot, looking a key up among the
      entries read back gives the value arrays read back. */
  lemma {:induction false} LookupKept(es: seq<Entry>, k: Str)
    requires forall i :: 0 <= i < |es| ==> |es[i].key| <= SLOT - 4
    ensures Lookup(KeptEntries(es), k) == KeptFound(Lookup(es, k))
    decreases |es|
  {
    if |es| > 0 {
      var head := if es[0].key == k then [es[0].value] else [];
      assert KeptEntries(es)[1..] == KeptEntries(es[1..]);
      LookupKept(es[1..], k);
      assert Lookup(es, k) == head + Lookup(es[1..], k);
      assert KeptFound(head + Lookup(es[1..], k)) == KeptFound(head) + KeptFound(Lookup(es[1..], k));
    }
  }

  /** `insertKeyValue` into an ordered leaf image with room, read back: a
      key that fits its slot finds the one value array as it reads back and
      every other key finds what it found before; a longer key finds
      nothing, since its slot holds only its first 60 bytes. */
  lemma InsertReadBack(s: LeafState, key: Str, value: Option<seq<Str>>, rowId: Str, k: Str)
    requires Ordered(s) && AsStored(s) && !IsFull(s)
    ensures var t := KeptLeaf(Insert(s, key, value, rowId).value);
            && Search(t, key) == (if |key| <= SLOT - 4 then [KeptValues(value)] else [])
            && (|key| <= SLOT - 4 && k != key ==> Search(t, k) == Search(s, k))
  {
    var s' := Insert(s, key, value, rowId).value;
    var t := KeptLeaf(s');
    if |key| <= SLOT - 4 {
      ShortKeyFound(s, key, value, rowId);
      if k != key {
        ShortKeyOthers(s, key, value, rowId, k);
      }
    } else {
      KeptIsStored(s');
      LongKeyAbsent(t, key);
    }
  }

  /** The key case of `InsertReadBack` for a key that fits its slot. */
  lemma ShortKeyFound(s: LeafState, key: Str, value: Option<seq<Str>>, rowId: Str)
    requires Ordered(s) && AsStored(s) && !IsFull(s) && |key| <= SLOT - 4
    ensures Search(KeptLeaf(Insert(s, key, value, rowId).value), key) == [KeptValues(value)]
  {
    var s' := Insert(s, key, value, rowId).value;
    InsertKeysKept(s, key, value, rowId);
    SearchKept(s', key);
    SearchAfterInsert(s, key, value, rowId);
  }

  /** The other keys of `InsertReadBack`, for a key that fits its slot. */
  lemma ShortKeyOthers(s: LeafState, key: Str, value: Option<seq<Str>>, rowId: Str, k: Str)
    requires Ordered(s) && AsStored(s) && !IsFull(s) && |key| <= SLOT - 4 && k != key
    ensures Search(KeptLeaf(Insert(s, key, value, rowId).value), k) == Search(s, k)
  {
    var s' := Insert(s, key, value, rowId).value;
    InsertKeysKept(s, key, value, rowId);
    SearchKept(s', k);
    SearchOtherAfterInsert(s, key, value, rowId, k);
    StoredFound(s, k);
  }

  /** A key longer than its slot is never present on a leaf image, so
      `insertKeyValue` always adds it as a new entry, at its rank, whose key
      reads back as its first 60 bytes. */
  lemma LongKeyAdded(t: LeafState, key: Str, value: Option<seq<Str>>, rowId: Str)
    requires Ordered(t) && AsStored(t) && !IsFull(t) && |key| > SLOT - 4
    ensures var p := CountLess(t.keys, t.keyCount, key);
            Entries(KeptLeaf(Insert(t, key, value, rowId).value))
              == Entries(t)[..p] + [KeptEntry(Entry(key, rowId, value))] + Entries(t)[p..]
  {
    LongKeyNotPresent(t, key);
    var u := Insert(t, key, value, rowId).value;
    InsertNew(t, key, value, rowId);
    EntriesKept(u);
    StoredIsKept(t);
    EntriesKept(t);
    KeptInsertEntries(Entries(t), CountLess(t.keys, t.keyCount, key), Entry(key, rowId, value));
  }

  /** A long key added to a one-entry leaf image whose key is its own cut
      key: both entries then carry that same key. */
  lemma LongKeyJoinsCut(t: LeafState, key: Str, value: Option<seq<Str>>, rowId: Str)
    requires Ordered(t) && AsStored(t) && !IsFull(t) && |key| > SLOT - 4
    requires |Entries(t)| == 1 && Entries(t)[0].key == Kept(key)
    ensures var es := Entries(KeptLeaf(Insert(t, key, value, rowId).value));
            |es| == 2 && es[0].key == Kept(key) && es[1].key == Kept(key)
  {
    LongKeyAdded(t, key, value, rowId);
    var p := CountLess(t.keys, t.keyCount, key);
    assert p == 0 || p == 1;
  }

  lemma LongKeyNotPresent(t: LeafState, key: Str)
    requires Wf(t) && KeysKept(t) && |key| > SLOT - 4
    ensures !Present(t.keys, t.keyCount, key)
  {
  }

  /** Entries that already read back as themselves, with one entry shifted
      in, read back with only that entry changed. */
  lemma KeptInsertEntries(es: seq<Entry>, p: int, e: Entry)
    requires 0 <= p <= |es| && KeptEntries(es) == es
    ensures KeptEntries(es[..p] + [e] + es[p..]) == es[..p] + [KeptEntry(e)] + es[p..]
  {
    KeptEntriesAppend(es[..p] + [e], es[p..]);
    KeptEntriesAppend(es[..p], [e]);
    assert KeptEntries([e]) == [KeptEntry(e)];
    KeptEntriesSplit(es, p);
  }

  lemma KeptEntriesAppend(a: seq<Entry>, b: seq<Entry>)
    ensures KeptEntries(a + b) == KeptEntries(a) + KeptEntries(b)
  {
  }

  lemma KeptEntriesSplit(es: seq<Entry>, p: int)
    requires 0 <= p <= |es|
    ensures KeptEntries(es[..p]) == KeptEntries(es)[..p] && KeptEntries(es[p..]) == KeptEntries(es)[p..]
  {
  }

  /** Two leaves whose keys fit, read back: looking a key up among their
      entries gives the value arrays read back. */
  lemma LookupPairKept(l: LeafState, r: LeafState, k: Str)
    requires Wf(l) && Wf(r) && KeysKept(l) && KeysKept(r)
    ensures Lookup(Entries(KeptLeaf(l)) + Entries(KeptLeaf(r)), k)
              == KeptFound(Lookup(Entries(l) + Entries(r), k))
  {
    EntriesKept(l);
    EntriesKept(r);
    EntriesFit(l);
    EntriesFit(r);
    var el, er := Entries(l), Entries(r);
    var es := el + er;
    KeptEntriesAppend(el, er);
    forall i | 0 <= i < |es| ensures |es[i].key| <= SLOT - 4 {
      if i < |el| {
        assert es[i] == el[i];
      } else {
        assert es[i] == er[i - |el|];
      }
    }
    LookupKept(es, k);
  }

  /** On a leaf image, looking a key up gives value arrays that already
      read back as themselves. */
  lemma StoredLookup(s: LeafState, k: Str)
    requires Wf(s) && AsStored(s)
    ensures KeptFound(Lookup(Entries(s), k)) == Lookup(Entries(s), k)
  {
    StoredIsKept(s);
    EntriesKept(s);
    EntriesFit(s);
    LookupKept(Entries(s), k);
  }
}

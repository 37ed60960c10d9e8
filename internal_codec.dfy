/** The page layout of an internal node (InternalNode.serialize /
    deserialize): three header ints — the tag 0, keyCount and parent — at
    offset 0, then `maxKeys` key slots of 64 bytes, then `maxKeys + 1`
    child ints. Every slot is written whatever the key count: unused key
    slots hold "" and unused child slots -1. */
module InternalCodec {
  import opened Types
  import opened Pages
  import opened NodeBase
  import opened Internals

  const INTERNAL_TAG := 0
  const KEYS_START := 12
  const KEY_SLOT := 64

  /** Where key slot `i` starts. */
  function KeyAt(i: int): int {
    KEYS_START + KEY_SLOT * i
  }

  /** Where child slot `i` starts, after the `m` key slots. */
  function ChildAt(m: int, i: int): int {
    KEYS_START + KEY_SLOT * m + 4 * i
  }

  /** The bytes the layout of a node with `m` key slots spans. */
  function LayoutEnd(m: int): int {
    ChildAt(m, m + 1)
  }

  /** The key `serialize` writes in slot `i`: the key below the key count,
      and "" for a null key or an unused slot. */
  function SlotKey(s: InternalState, i: int): Str
    requires 0 <= i < |s.keys|
  {
    if i < s.keyCount && s.keys[i].Some? then s.keys[i].value else []
  }

  /** The child `serialize` writes in slot `i`: the child up to the key
      count, and -1 after it. */
  function SlotChild(s: InternalState, i: int): int
    requires 0 <= i < |s.children|
  {
    if i <= s.keyCount then s.children[i] else -1
  }

  function HeaderWrites(s: InternalState): seq<Write> {
    [PutInt(0, INTERNAL_TAG), PutInt(4, s.keyCount), PutInt(8, s.parent)]
  }

  function KeyWrites(s: InternalState): (ws: seq<Write>)
    requires Wf(s)
    ensures |ws| == MaxKeys(s)
  {
    seq(MaxKeys(s), i requires 0 <= i < MaxKeys(s) => PutStr(KeyAt(i), SlotKey(s, i), KEY_SLOT))
  }

  function ChildWrites(s: InternalState): (ws: seq<Write>)
    requires Wf(s)
    ensures |ws| == MaxKeys(s) + 1
  {
    seq(MaxKeys(s) + 1, i requires 0 <= i <= MaxKeys(s) => PutInt(ChildAt(MaxKeys(s), i), SlotChild(s, i)))
  }

  /** Every accessor call of `serialize`, in order. */
  function InternalWrites(s: InternalState): (ws: seq<Write>)
    requires Wf(s)
    ensures |ws| == 2 * MaxKeys(s) + 4
  {
    HeaderWrites(s) + KeyWrites(s) + ChildWrites(s)
  }

  /** `serialize`: the cleared page, the header, then the key slots and
      the child slots in order, up to the first write `Page` rejects, which
      throws; `ok` when none is rejected. */
  function EncodeInternal(s: InternalState): (r: Image)
    requires Wf(s)
    ensures |r.image| == PAGE_SIZE
  {
    var header := Apply(Zeros(PAGE_SIZE), HeaderWrites(s));
    var ks, cs := KeyWrites(s), ChildWrites(s);
    var withKeys := Apply(header, ks[..OkRun(ks)]);
    if OkRun(ks) < |ks| then Image(withKeys, false)
    else Image(Apply(withKeys, cs[..OkRun(cs)]), OkRun(cs) == |cs|)
  }

  /** The writes lie one after the other, each on the page, when the layout fits. */
  lemma WritesAscending(s: InternalState)
    requires Wf(s) && LayoutEnd(MaxKeys(s)) <= PAGE_SIZE
    ensures Ascending(InternalWrites(s))
  {
    var ws, m := InternalWrites(s), MaxKeys(s);
    forall i | 0 <= i < |ws|
      ensures WriteOk(ws[i])
      ensures i < |ws| - 1 ==> Hi(ws[i]) <= ws[i + 1].at
    {
      if i < 3 {
      } else if i < 3 + m {
        assert ws[i] == KeyWrites(s)[i - 3];
        if i + 1 < 3 + m {
          assert ws[i + 1] == KeyWrites(s)[i - 2];
        } else {
          assert ws[i + 1] == ChildWrites(s)[0];
        }
      } else {
        assert ws[i] == ChildWrites(s)[i - 3 - m];
        if i < |ws| - 1 {
          assert ws[i + 1] == ChildWrites(s)[i - 2 - m];
        }
      }
    }
  }

  /** `serialize` finishes exactly when the layout fits on the page: the
      last child int is the write that leaves it otherwise. */
  lemma EncodeOkIffFits(s: InternalState)
    requires Wf(s)
    ensures EncodeInternal(s).ok <==> LayoutEnd(MaxKeys(s)) <= PAGE_SIZE
  {
    var ks, cs, m := KeyWrites(s), ChildWrites(s), MaxKeys(s);
    if LayoutEnd(m) <= PAGE_SIZE {
      assert ks[..|ks|] == ks && cs[..|cs|] == cs;
      OkRunIs(ks, |ks|);
      OkRunIs(cs, |cs|);
    } else {
      assert !WriteOk(cs[m]);
    }
  }

  /** Each of the three runs of a fitting layout is accepted in full. */
  lemma RunsAccepted(s: InternalState)
    requires Wf(s) && LayoutEnd(MaxKeys(s)) <= PAGE_SIZE
    ensures AllOk(HeaderWrites(s)) && AllOk(KeyWrites(s)) && AllOk(ChildWrites(s))
    ensures OkRun(KeyWrites(s)) == |KeyWrites(s)| && OkRun(ChildWrites(s)) == |ChildWrites(s)|
  {
    var ks, cs := KeyWrites(s), ChildWrites(s);
    assert ks[..|ks|] == ks && cs[..|cs|] == cs;
    OkRunIs(ks, |ks|);
    OkRunIs(cs, |cs|);
  }

  /** A page whose layout fits is the cleared page after every write. */
  lemma EncodedIsApply(s: InternalState)
    requires Wf(s) && LayoutEnd(MaxKeys(s)) <= PAGE_SIZE
    ensures Ascending(InternalWrites(s))
    ensures EncodeInternal(s).image == Apply(Zeros(PAGE_SIZE), InternalWrites(s))
  {
    var hs, ks, cs := HeaderWrites(s), KeyWrites(s), ChildWrites(s);
    WritesAscending(s);
    RunsAccepted(s);
    assert ks[..|ks|] == ks && cs[..|cs|] == cs;
    assert EncodeInternal(s).image == Apply(Apply(Apply(Zeros(PAGE_SIZE), hs), ks), cs);
    ApplyThree(Zeros(PAGE_SIZE), hs, ks, cs);
  }

  /** Key slot `i` as `deserialize` reads it with stored key count `kc`:
      null unless `i` is below `kc` and the stored key is non-empty. */
  function DecodedKey(img: seq<Byte>, kc: int, i: int): Option<Str>
    requires |img| == PAGE_SIZE
  {
    var k := ReadStringAt(img, KeyAt(i), KEY_SLOT);
    if i < kc && k != [] then Some(k) else None
  }

  /** `deserialize` into a node with fields `s0`: the key count and parent
      from the header; key slot `i` below `maxKeys` becomes null unless `i`
      is below the stored key count and the stored key is non-empty; every
      child slot up to `maxKeys` is read. Slots past those keep their value. */
  function DecodeInternalInto(s0: InternalState, img: seq<Byte>): (s: InternalState)
    requires Shape(s0) && |img| == PAGE_SIZE
    ensures |s.keys| == |s0.keys| && |s.children| == |s0.children|
  {
    var m, kc := MaxKeys(s0), ReadIntAt(img, 4);
    InternalState(kc, ReadIntAt(img, 8),
                  seq(m + 1, i requires 0 <= i <= m => if i == m then s0.keys[m] else DecodedKey(img, kc, i)),
                  seq(m + 2, i requires 0 <= i <= m + 1 =>
                        if i == m + 1 then s0.children[m + 1] else ReadIntAt(img, ChildAt(m, i))))
  }

  /** What the engine reads back from a page: a fresh node with `maxKeys`
      key slots, deserialized. */
  function DecodeInternal(img: seq<Byte>, maxKeys: nat): (s: InternalState)
    requires |img| == PAGE_SIZE && IsInt32(maxKeys + 2)
  {
    DecodeInternalInto(Fresh(maxKeys), img)
  }

  /** A decoded node is well formed when its stored key count is in range. */
  lemma DecodeWf(s0: InternalState, img: seq<Byte>)
    requires Wf(s0) && |img| == PAGE_SIZE && 0 <= ReadIntAt(img, 4) <= |s0.keys|
    ensures Wf(DecodeInternalInto(s0, img))
  {
  }

  /** What survives a round trip in key slot `i`: the key truncated to 60
      bytes, null when that is empty. */
  function KeptKey(s: InternalState, i: int): Option<Str>
    requires 0 <= i < |s.keys|
  {
    var k := StoredString(SlotKey(s, i), KEY_SLOT);
    if i < s.keyCount && k != [] then Some(k) else None
  }

  /** The node a round trip gives back: keys truncated to 60 bytes (empty
      ones null), the children up to the key count, -1 in every other slot. */
  function KeptInternal(s: InternalState): (r: InternalState)
    requires Wf(s)
  {
    var m := MaxKeys(s);
    InternalState(s.keyCount, s.parent,
                  seq(m + 1, i requires 0 <= i <= m => if i == m then None else KeptKey(s, i)),
                  seq(m + 2, i requires 0 <= i <= m + 1 => if i <= m then SlotChild(s, i) else -1))
  }

  /** The header of a page holding every write reads back. */
  lemma HeaderReadsBack(s: InternalState, img: seq<Byte>)
    requires Wf(s) && Ascending(InternalWrites(s)) && img == Apply(Zeros(PAGE_SIZE), InternalWrites(s))
    ensures ReadIntAt(img, 4) == s.keyCount && ReadIntAt(img, 8) == s.parent
  {
    var ws := InternalWrites(s);
    assert ws[0..3] == HeaderWrites(s);
    ApplyReadsRun(Zeros(PAGE_SIZE), ws, 0, HeaderWrites(s));
    assert ReadsBack(img, HeaderWrites(s)[1]) && ReadsBack(img, HeaderWrites(s)[2]);
    DecodeEncodeInt(s.keyCount);
    DecodeEncodeInt(s.parent);
  }

  /** Every key slot of a page holding every write reads back as its stored prefix. */
  lemma KeysReadBack(s: InternalState, img: seq<Byte>)
    requires Wf(s) && Ascending(InternalWrites(s)) && img == Apply(Zeros(PAGE_SIZE), InternalWrites(s))
    ensures forall i :: 0 <= i < MaxKeys(s) ==>
              ReadStringAt(img, KeyAt(i), KEY_SLOT) == StoredString(SlotKey(s, i), KEY_SLOT)
  {
    var ws, m := InternalWrites(s), MaxKeys(s);
    assert ws[3..3 + m] == KeyWrites(s);
    ApplyReadsRun(Zeros(PAGE_SIZE), ws, 3, KeyWrites(s));
    forall i | 0 <= i < m
      ensures ReadStringAt(img, KeyAt(i), KEY_SLOT) == StoredString(SlotKey(s, i), KEY_SLOT)
    {
      assert ReadsBack(img, KeyWrites(s)[i]);
    }
  }

  /** Every child slot of a page holding every write reads back. */
  lemma ChildrenReadBack(s: InternalState, img: seq<Byte>)
    requires Wf(s) && Ascending(InternalWrites(s)) && img == Apply(Zeros(PAGE_SIZE), InternalWrites(s))
    ensures forall i :: 0 <= i <= MaxKeys(s) ==> ReadIntAt(img, ChildAt(MaxKeys(s), i)) == SlotChild(s, i)
  {
    var m := MaxKeys(s);
    ChildWritesRead(s, img);
    forall i | 0 <= i <= m
      ensures ReadIntAt(img, ChildAt(m, i)) == SlotChild(s, i)
    {
      assert ReadsBack(img, ChildWrites(s)[i]);
      DecodeEncodeInt(SlotChild(s, i));
    }
  }

  /** Every child write of a node reads back from a page holding every write. */
  lemma ChildWritesRead(s: InternalState, img: seq<Byte>)
    requires Wf(s) && Ascending(InternalWrites(s)) && img == Apply(Zeros(PAGE_SIZE), InternalWrites(s))
    ensures AllOk(ChildWrites(s))
    ensures forall t :: 0 <= t < |ChildWrites(s)| ==> ReadsBack(img, ChildWrites(s)[t])
  {
    var ws, m := InternalWrites(s), MaxKeys(s);
    assert ws[3 + m..3 + m + (m + 1)] == ChildWrites(s);
    ApplyReadsRun(Zeros(PAGE_SIZE), ws, 3 + m, ChildWrites(s));
  }

  /** Round trip: a node whose layout fits, deserialized into a fresh node
      after `serialize`, comes back as `KeptInternal`. */
  lemma InternalRoundTrip(s: InternalState)
    requires Wf(s) && s.keyCount <= MaxKeys(s) && LayoutEnd(MaxKeys(s)) <= PAGE_SIZE
    ensures EncodeInternal(s).ok
    ensures DecodeInternal(EncodeInternal(s).image, MaxKeys(s)) == KeptInternal(s)
  {
    EncodeOkIffFits(s);
    EncodedIsApply(s);
    DecodeAll(s, EncodeInternal(s).image);
  }

  /** A page holding every write of a node decodes to what the round trip keeps. */
  lemma DecodeAll(s: InternalState, img: seq<Byte>)
    requires Wf(s) && s.keyCount <= MaxKeys(s)
    requires Ascending(InternalWrites(s)) && img == Apply(Zeros(PAGE_SIZE), InternalWrites(s))
    ensures DecodeInternal(img, MaxKeys(s)) == KeptInternal(s)
  {
    HeaderReadsBack(s, img);
    KeysReadBack(s, img);
    ChildrenReadBack(s, img);
    var d, k := DecodeInternal(img, MaxKeys(s)), KeptInternal(s);
    assert d.keys == k.keys;
    assert d.children == k.children;
  }

  /** For an ordered node whose keys are non-empty and at most 60 bytes,
      what a round trip keeps is the node's key count, parent, keys and
      routed children. */
  lemma KeptOrdered(s: InternalState)
    requires Ordered(s) && s.keyCount <= MaxKeys(s)
    requires forall i :: 0 <= i < s.keyCount ==> 0 < |s.keys[i].value| <= KEY_SLOT - 4
    ensures var d := KeptInternal(s);
            && Ordered(d) && d.keyCount == s.keyCount && d.parent == s.parent
            && Keys(d) == Keys(s) && Children(d) == Children(s)
  {
    var d := KeptInternal(s);
    assert forall i :: 0 <= i < s.keyCount ==> d.keys[i] == s.keys[i];
    assert Keys(d) == Keys(s);
    assert Children(d) == Children(s);
  }

  /** A node whose keys below the key count are non-empty reads back with
      the same key count, parent, `maxKeys` and routed children, and with
      each of those keys cut to its first 60 bytes, still non-empty. */
  lemma KeptNonEmpty(s: InternalState)
    requires Wf(s) && NonEmpty(s.keys, s.keyCount) && s.keyCount <= MaxKeys(s)
    ensures var d := KeptInternal(s);
            && Wf(d) && NonEmpty(d.keys, d.keyCount) && d.keyCount == s.keyCount && d.parent == s.parent
            && MaxKeys(d) == MaxKeys(s) && Children(d) == Children(s)
            && forall i :: 0 <= i < s.keyCount ==> d.keys[i] == Some(StoredString(s.keys[i].value, KEY_SLOT))
  {
    var d := KeptInternal(s);
    forall i | 0 <= i < s.keyCount
      ensures d.keys[i] == Some(StoredString(s.keys[i].value, KEY_SLOT))
    {
      assert |StoredString(s.keys[i].value, KEY_SLOT)| == Min(|s.keys[i].value|, KEY_SLOT - 4);
    }
    assert Children(d) == Children(s);
  }

  /** Reading a node back twice gives what reading it back once gave. */
  lemma KeptInternalStable(s: InternalState)
    requires Wf(s)
    ensures KeptInternal(KeptInternal(s)) == KeptInternal(s)
  {
    var d := KeptInternal(s);
    var e := KeptInternal(d);
    assert e.keys == d.keys;
    assert e.children == d.children;
  }

  /** The round trip of such a node keeps all of that. */
  lemma OrderedRoundTrip(s: InternalState)
    requires Ordered(s) && s.keyCount <= MaxKeys(s) && LayoutEnd(MaxKeys(s)) <= PAGE_SIZE
    requires forall i :: 0 <= i < s.keyCount ==> 0 < |s.keys[i].value| <= KEY_SLOT - 4
    ensures var d := DecodeInternal(EncodeInternal(s).image, MaxKeys(s));
            && Ordered(d) && d.keyCount == s.keyCount && d.parent == s.parent
            && Keys(d) == Keys(s) && Children(d) == Children(s)
  {
    InternalRoundTrip(s);
    KeptOrdered(s);
  }

  /** With the key counts the engine uses (at most 20), the layout fits. */
  lemma SmallNodesFit(m: int)
    requires 0 <= m <= 20
    ensures LayoutEnd(m) <= PAGE_SIZE
  {
  }
}

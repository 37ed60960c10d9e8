/** The tree engine of BPlusTreeImpl.java as values: the page store it
    works on, the path-guarded descent shared by insert, get and delete,
    the reparenting loop, the statistics and validation walks, the metadata
    header and `calculateMaxKeys`. The class in tree.dfy runs these steps
    imperatively; this module states what each of them computes. */
module TreeSpec {
  import opened Types
  import opened Pages
  import opened NodeBase
  import Leaves
  import Internals
  import LeafCodec
  import InternalCodec
  import Disk

  /** `MAX_RECURSION_DEPTH`. */
  const MAX_DEPTH: int := 50
  /** The metadata magic number. */
  const MAGIC: int := 0x12345678

  /** A page as the engine reads it: `readInt(0)` selects the decoder. A tag
      of 1 is a leaf, 0 an internal node, anything else is refused. */
  datatype Node = LeafPage(leaf: Leaves.LeafState)
                | InternalPage(internal: Internals.InternalState)
                | OtherPage(tag: int)

  /** The node type tag stored at offset 0. */
  function Tag(n: Node): int {
    match n
    case LeafPage(_) => 1
    case InternalPage(_) => 0
    case OtherPage(t) => t
  }

  /** `calculateMaxKeys` always lands in [3, 20]. */
  predicate ValidMaxKeys(maxKeys: int) {
    3 <= maxKeys <= 20
  }

  /** The parent pointer of a leaf or internal node. */
  function ParentOf(n: Node): int
    requires !n.OtherPage?
  {
    if n.LeafPage? then n.leaf.parent else n.internal.parent
  }

  /** A node the engine hands to `writePage` for a given `maxKeys`: a leaf
      with `maxKeys` slots whose keys never fall (only its first key may be
      empty), an internal node with non-empty keys and at most `maxKeys` of
      them, or a page of another tag. */
  predicate Writable(n: Node, maxKeys: int) {
    match n
    case LeafPage(s) => Leaves.Ranked(s) && |s.keys| == maxKeys
    case InternalPage(s) =>
      Internals.Wf(s) && NonEmpty(s.keys, s.keyCount)
      && Internals.MaxKeys(s) == maxKeys && s.keyCount <= maxKeys
    case OtherPage(t) => t != 0 && t != 1 && IsInt32(t)
  }

  /** A node as the store holds it: writable, and a leaf already in the
      form `deserialize` gives back. */
  predicate NodeWf(n: Node, maxKeys: int) {
    Writable(n, maxKeys) && (n.LeafPage? ==> LeafCodec.AsStored(n.leaf))
  }

  /** `serialize` and then `deserialize`: strings cut to their 60-byte
      slots, an empty value array read back as null, and the child slots
      after the key count read back as -1. What is read back is again a
      node as the store holds it, with the same parent pointer. */
  function Stored(n: Node, maxKeys: int): (r: Node)
    requires Writable(n, maxKeys)
    ensures NodeWf(r, maxKeys) && Tag(r) == Tag(n)
    ensures !n.OtherPage? ==> ParentOf(r) == ParentOf(n)
    ensures n.LeafPage? && LeafCodec.AsStored(n.leaf) ==> r == n
  {
    match n
    case LeafPage(s) =>
      LeafCodec.KeptIsStored(s);
      LeafCodec.KeptRanked(s);
      if LeafCodec.AsStored(s) then
        LeafCodec.StoredIsKept(s);
        LeafPage(LeafCodec.KeptLeaf(s))
      else LeafPage(LeafCodec.KeptLeaf(s))
    case InternalPage(s) =>
      InternalCodec.KeptNonEmpty(s);
      InternalPage(InternalCodec.KeptInternal(s))
    case OtherPage(_) => n
  }

  /** The pages written so far, by page id: ids are non-negative Java ints. */
  predicate StoreWf(store: map<int, Node>, maxKeys: int) {
    && ValidMaxKeys(maxKeys)
    && forall id :: id in store ==> 0 <= id && IsInt32(id) && NodeWf(store[id], maxKeys)
  }

  lemma ZeroInts(offset: int)
    requires IntFits(offset)
    ensures ReadIntAt(Zeros(PAGE_SIZE), offset) == 0
  {
    assert Zeros(PAGE_SIZE)[offset..offset + 4] == [0, 0, 0, 0];
  }

  /** A page never written reads as zeros, which decode as an internal node
      with no keys, parent 0 and child ids 0; the one child slot the decoder
      does not read keeps the -1 of a fresh node. */
  function ZeroPage(maxKeys: int): (n: Node)
    requires ValidMaxKeys(maxKeys)
    ensures NodeWf(n, maxKeys) && n.InternalPage? && n.internal.keyCount == 0
  {
    InternalPage(Internals.InternalState(0, 0, NullKeys(maxKeys + 1),
                                         seq(maxKeys + 2, i => if i == maxKeys + 1 then -1 else 0)))
  }

  /** That is what the internal-node decoder makes of a page of zeros. */
  lemma ZeroPageDecodes(maxKeys: int)
    requires ValidMaxKeys(maxKeys)
    ensures ZeroPage(maxKeys) == InternalPage(InternalCodec.DecodeInternal(Zeros(PAGE_SIZE), maxKeys))
  {
    var d := InternalCodec.DecodeInternal(Zeros(PAGE_SIZE), maxKeys);
    var z := ZeroPage(maxKeys).internal;
    ZeroInts(4);
    ZeroInts(8);
    forall i | 0 <= i <= maxKeys
      ensures d.children[i] == 0
    {
      ZeroInts(InternalCodec.ChildAt(maxKeys, i));
    }
    assert d.keys == z.keys;
    assert d.children == z.children;
  }

  /** `fetchPage(id)` followed by the decoder its tag selects. */
  function Load(store: map<int, Node>, maxKeys: int, id: int): (n: Node)
    requires StoreWf(store, maxKeys)
    ensures NodeWf(n, maxKeys)
  {
    if id in store then store[id] else ZeroPage(maxKeys)
  }

  // ---------------------------------------------------------------------
  // The descent of insertHelper, searchHelper and deleteHelper
  // ---------------------------------------------------------------------

  /** Where a descent ends: at a leaf, at a negative page id, or with an
      exception. */
  datatype Reach = AtLeaf(id: int, leaf: Leaves.LeafState) | Missing | Stopped(error: Error)

  /** The descent from page `id` at `depth`, with `visited` the pages on
      the path above it: too deep, a negative id, a page already on the
      path, a child id that is negative or the page itself, and an unknown
      tag each end it; a leaf ends it successfully. */
  function Descend(store: map<int, Node>, maxKeys: int, id: int, key: Str, depth: nat, visited: set<int>): (r: Reach)
    requires StoreWf(store, maxKeys)
    ensures r.AtLeaf? ==> 0 <= r.id && r.id !in visited && Load(store, maxKeys, r.id) == LeafPage(r.leaf)
    decreases MAX_DEPTH + 1 - depth
  {
    if depth > MAX_DEPTH then Stopped(DepthExceeded)
    else if id < 0 then Missing
    else if id in visited then Stopped(CycleDetected)
    else match Load(store, maxKeys, id)
      case LeafPage(s) => AtLeaf(id, s)
      case InternalPage(s) =>
        var child := Internals.FindChild(s, key);
        if child < 0 then Stopped(InvalidChild)
        else if child == id then Stopped(SelfReference)
        else Descend(store, maxKeys, child, key, depth + 1, visited + {id})
      case OtherPage(_) => Stopped(UnknownNodeType)
  }

  /** A route for `key`: distinct non-negative pages, each internal one
      routing `key` to the next with `findChild`, ending at a leaf. */
  ghost predicate IsRoute(store: map<int, Node>, maxKeys: int, key: Str, path: seq<int>)
    requires StoreWf(store, maxKeys)
  {
    && |path| > 0
    && (forall i :: 0 <= i < |path| ==> 0 <= path[i])
    && (forall i, j :: 0 <= i < j < |path| ==> path[i] != path[j])
    && (forall i :: 0 <= i < |path| - 1 ==>
          Load(store, maxKeys, path[i]).InternalPage?
          && Internals.FindChild(Load(store, maxKeys, path[i]).internal, key) == path[i + 1])
    && Load(store, maxKeys, path[|path| - 1]).LeafPage?
  }

  /** A descent that reaches a leaf has followed a route of at most
      `MAX_DEPTH + 1 - depth` pages, none of them on the path above. */
  lemma {:induction false} DescendFollowsRoute(store: map<int, Node>, maxKeys: int, id: int, key: Str,
                                                depth: nat, visited: set<int>) returns (path: seq<int>)
    requires StoreWf(store, maxKeys) && Descend(store, maxKeys, id, key, depth, visited).AtLeaf?
    ensures IsRoute(store, maxKeys, key, path)
    ensures path[0] == id && path[|path| - 1] == Descend(store, maxKeys, id, key, depth, visited).id
    ensures |path| + depth <= MAX_DEPTH + 1
    ensures forall i :: 0 <= i < |path| ==> path[i] !in visited
    decreases MAX_DEPTH + 1 - depth
  {
    if Load(store, maxKeys, id).LeafPage? {
      path := [id];
    } else {
      var s := Load(store, maxKeys, id).internal;
      var child := Internals.FindChild(s, key);
      assert Descend(store, maxKeys, id, key, depth, visited)
               == Descend(store, maxKeys, child, key, depth + 1, visited + {id});
      var sub := DescendFollowsRoute(store, maxKeys, child, key, depth + 1, visited + {id});
      assert id !in sub;
      RouteCons(store, maxKeys, key, id, sub);
      path := [id] + sub;
      forall i | 0 <= i < |path|
        ensures path[i] !in visited
      {
        if i > 0 {
          assert path[i] == sub[i - 1];
        }
      }
    }
  }

  /** A page routing `key` to the start of a route, and not on it, extends it. */
  lemma RouteCons(store: map<int, Node>, maxKeys: int, key: Str, id: int, sub: seq<int>)
    requires StoreWf(store, maxKeys) && IsRoute(store, maxKeys, key, sub) && 0 <= id && id !in sub
    requires Load(store, maxKeys, id).InternalPage?
    requires Internals.FindChild(Load(store, maxKeys, id).internal, key) == sub[0]
    ensures IsRoute(store, maxKeys, key, [id] + sub)
  {
    var path := [id] + sub;
    assert forall i :: 1 <= i < |path| ==> path[i] == sub[i - 1];
  }

  /** Conversely, a route short enough and off the path above is what the
      descent follows. */
  lemma {:induction false} RouteIsDescended(store: map<int, Node>, maxKeys: int, key: Str, path: seq<int>,
                                             depth: nat, visited: set<int>)
    requires StoreWf(store, maxKeys) && IsRoute(store, maxKeys, key, path)
    requires |path| + depth <= MAX_DEPTH + 1
    requires forall i :: 0 <= i < |path| ==> path[i] !in visited
    ensures var last := path[|path| - 1];
            Descend(store, maxKeys, path[0], key, depth, visited)
              == AtLeaf(last, Load(store, maxKeys, last).leaf)
    decreases |path|
  {
    if |path| > 1 {
      var sub := path[1..];
      assert forall i :: 0 <= i < |sub| ==> sub[i] == path[i + 1];
      assert IsRoute(store, maxKeys, key, sub);
      RouteIsDescended(store, maxKeys, key, sub, depth + 1, visited + {path[0]});
    }
  }

  /** What a descent reaches after leaf `l` was rewritten as `s`. */
  function Rewritten(r: Reach, l: int, s: Leaves.LeafState): Reach {
    if r.AtLeaf? && r.id == l then AtLeaf(l, s) else r
  }

  /** Rewriting a leaf changes no route: every descent ends where it ended
      before, and one that ended at the rewritten leaf now sees its new
      contents. */
  lemma {:induction false} DescendAfterLeafWrite(store: map<int, Node>, maxKeys: int, l: int, s: Leaves.LeafState,
                                                  id: int, key: Str, depth: nat, visited: set<int>)
    requires StoreWf(store, maxKeys) && 0 <= l && IsInt32(l)
    requires Load(store, maxKeys, l).LeafPage? && NodeWf(LeafPage(s), maxKeys)
    ensures StoreWf(store[l := LeafPage(s)], maxKeys)
    ensures Descend(store[l := LeafPage(s)], maxKeys, id, key, depth, visited)
              == Rewritten(Descend(store, maxKeys, id, key, depth, visited), l, s)
    decreases MAX_DEPTH + 1 - depth
  {
    var store' := store[l := LeafPage(s)];
    if depth <= MAX_DEPTH && 0 <= id && id !in visited && id != l {
      assert Load(store', maxKeys, id) == Load(store, maxKeys, id);
      if Load(store, maxKeys, id).InternalPage? {
        var child := Internals.FindChild(Load(store, maxKeys, id).internal, key);
        if 0 <= child && child != id {
          DescendAfterLeafWrite(store, maxKeys, l, s, child, key, depth + 1, visited + {id});
        }
      }
    }
  }

  // ---------------------------------------------------------------------
  // updateNodeParent and updateChildrenParent
  // ---------------------------------------------------------------------

  /** A node with its parent pointer set; a page of unknown type is left as
      it is. */
  function WithParent(n: Node, parent: int): Node {
    match n
    case LeafPage(s) => LeafPage(s.(parent := parent))
    case InternalPage(s) => InternalPage(s.(parent := parent))
    case OtherPage(_) => n
  }

  lemma WithParentWf(n: Node, maxKeys: int, parent: int)
    requires NodeWf(n, maxKeys) && IsInt32(parent)
    ensures NodeWf(WithParent(n, parent), maxKeys)
  {
  }

  /** `updateNodeParent`: the page of `id` read back, given `parent` as its
      parent and written again. A leaf changes only its parent pointer; an
      internal node keeps its key count and the children it routes to; a
      page of unknown type is written back as it was; no other page
      changes. */
  function SetParent(store: map<int, Node>, maxKeys: int, id: int, parent: int): (r: map<int, Node>)
    requires StoreWf(store, maxKeys) && 0 <= id && IsInt32(id) && IsInt32(parent)
    ensures StoreWf(r, maxKeys)
    ensures var n, n' := Load(store, maxKeys, id), Load(r, maxKeys, id);
            && Tag(n') == Tag(n)
            && (!n.OtherPage? ==> ParentOf(n') == parent)
            && (n.LeafPage? ==> n' == LeafPage(n.leaf.(parent := parent)))
            && (n.InternalPage? ==> n'.internal.keyCount == n.internal.keyCount
                                    && Internals.Children(n'.internal) == Internals.Children(n.internal))
            && (n.OtherPage? ==> n' == n)
    ensures forall x :: x != id ==> Load(r, maxKeys, x) == Load(store, maxKeys, x)
  {
    var n := Load(store, maxKeys, id);
    WithParentWf(n, maxKeys, parent);
    StoredWithParent(n, maxKeys, parent);
    store[id := Stored(WithParent(n, parent), maxKeys)]
  }

  /** A node read back after its parent pointer is set: a leaf as the store
      holds it changes only its parent pointer, an internal node keeps its
      key count and routed children. */
  lemma StoredWithParent(n: Node, maxKeys: int, parent: int)
    requires NodeWf(n, maxKeys) && IsInt32(parent)
    ensures var n' := Stored(WithParent(n, parent), maxKeys);
            && (n.LeafPage? ==> n' == LeafPage(n.leaf.(parent := parent)))
            && (n.InternalPage? ==> n'.internal.keyCount == n.internal.keyCount
                                    && Internals.Children(n'.internal) == Internals.Children(n.internal))
  {
    WithParentWf(n, maxKeys, parent);
    if n.LeafPage? {
      LeafCodec.StoredIsKept(n.leaf.(parent := parent));
    } else if n.InternalPage? {
      InternalCodec.KeptNonEmpty(n.internal.(parent := parent));
    }
  }

  /** Setting the same parent twice writes what setting it once wrote. */
  lemma SetParentTwice(store: map<int, Node>, maxKeys: int, id: int, parent: int)
    requires StoreWf(store, maxKeys) && 0 <= id && IsInt32(id) && IsInt32(parent)
    ensures SetParent(SetParent(store, maxKeys, id, parent), maxKeys, id, parent) == SetParent(store, maxKeys, id, parent)
  {
    var n := Load(store, maxKeys, id);
    if n.InternalPage? {
      var t := n.internal.(parent := parent);
      InternalCodec.KeptInternalStable(t);
      assert InternalCodec.KeptInternal(t).(parent := parent) == InternalCodec.KeptInternal(t);
    }
  }

  /** `updateChildrenParent` over the child ids `ids`: each id other than -1
      is fetched (a negative one fails) and its page gets `parent` as its
      parent. The store when it stops, and whether it finished. */
  function Reparent(store: map<int, Node>, maxKeys: int, ids: seq<int>, parent: int): (r: (map<int, Node>, Outcome))
    requires StoreWf(store, maxKeys) && IsInt32(parent)
    requires forall i :: 0 <= i < |ids| ==> IsInt32(ids[i])
    ensures StoreWf(r.0, maxKeys)
    decreases |ids|
  {
    if |ids| == 0 then (store, Pass)
    else
      var (st, o) := Reparent(store, maxKeys, ids[..|ids| - 1], parent);
      var id := ids[|ids| - 1];
      if o.Fail? || id == -1 then (st, o)
      else if id < 0 then (st, Fail(InvalidPageId))
      else (SetParent(st, maxKeys, id, parent), Pass)
  }

  /** Once the loop has failed, the later ids do not matter. */
  lemma {:induction false} ReparentStops(store: map<int, Node>, maxKeys: int, ids: seq<int>, parent: int, i: int)
    requires StoreWf(store, maxKeys) && IsInt32(parent)
    requires forall k :: 0 <= k < |ids| ==> IsInt32(ids[k])
    requires 0 <= i <= |ids| && Reparent(store, maxKeys, ids[..i], parent).1.Fail?
    ensures Reparent(store, maxKeys, ids, parent) == Reparent(store, maxKeys, ids[..i], parent)
    decreases |ids| - i
  {
    if i == |ids| {
      assert ids[..i] == ids;
    } else {
      assert ids[..i + 1][..i] == ids[..i];
      ReparentStops(store, maxKeys, ids, parent, i + 1);
    }
  }

  /** The reparenting loop fails exactly when some id is below -1. When it
      finishes, every listed page (other than -1) holds what it held before
      with `parent` as its parent, and every other page is unchanged. */
  lemma {:induction false} ReparentSets(store: map<int, Node>, maxKeys: int, ids: seq<int>, parent: int, x: int)
    requires StoreWf(store, maxKeys) && IsInt32(parent)
    requires forall i :: 0 <= i < |ids| ==> IsInt32(ids[i])
    ensures var (st, o) := Reparent(store, maxKeys, ids, parent);
            && (o.Fail? <==> exists i :: 0 <= i < |ids| && ids[i] < -1)
            && (o.Fail? ==> o.error == InvalidPageId)
            && (o.Pass? ==> Load(st, maxKeys, x) == if x in ids && x != -1 then Load(SetParent(store, maxKeys, x, parent), maxKeys, x)
                                                    else Load(store, maxKeys, x))
    decreases |ids|
  {
    if |ids| > 0 {
      var front, id := ids[..|ids| - 1], ids[|ids| - 1];
      assert ids == front + [id];
      ReparentSets(store, maxKeys, front, parent, x);
      var (st, o) := Reparent(store, maxKeys, front, parent);
      if o.Pass? && id >= 0 {
        ReparentSets(store, maxKeys, front, parent, id);
        SetParentTwice(store, maxKeys, id, parent);
        assert forall i :: 0 <= i < |ids| ==> ids[i] >= -1;
      }
      if o.Fail? {
        var i :| 0 <= i < |front| && front[i] < -1;
        assert ids[i] < -1;
      }
    }
  }

  // ---------------------------------------------------------------------
  // calculateTreeStats
  // ---------------------------------------------------------------------

  /** The four numbers `calculateTreeStats` returns: height, node count,
      key slots and used key slots. */
  datatype Stats = Stats(height: int, nodes: int, slots: int, used: int)

  /** Every Java `int`, the universe page ids come from. */
  function Int32Ids(): set<int> {
    set x: int | -0x8000_0000 <= x < 0x8000_0000 && IsInt32(x)
  }

  /** `calculateTreeStats(id, height, visited)`: nothing for a negative or
      revisited page or an unknown tag; a leaf counts itself; an internal
      node counts itself and adds its children's numbers, taking the
      largest height. */
  function TreeStats(store: map<int, Node>, maxKeys: int, id: int, height: int, visited: set<int>): (r: Stats)
    requires StoreWf(store, maxKeys) && IsInt32(id)
    decreases Int32Ids() - visited, 0, 0
  {
    if id < 0 || id in visited then Stats(0, 0, 0, 0)
    else match Load(store, maxKeys, id)
      case LeafPage(s) => Stats(height + 1, 1, maxKeys, s.keyCount)
      case InternalPage(s) =>
        assert id in Int32Ids();
        ChildStats(store, maxKeys, Internals.Children(s), 0, height, visited + {id},
                   Stats(height + 1, 1, maxKeys, s.keyCount))
      case OtherPage(_) => Stats(0, 0, 0, 0)
  }

  /** The loop over an internal node's children from child `i`, with the
      numbers `acc` gathered so far. */
  function ChildStats(store: map<int, Node>, maxKeys: int, kids: seq<int>, i: nat, height: int,
                      visited: set<int>, acc: Stats): (r: Stats)
    requires StoreWf(store, maxKeys) && i <= |kids|
    requires forall k :: 0 <= k < |kids| ==> IsInt32(kids[k])
    decreases Int32Ids() - visited, 1, |kids| - i
  {
    if i == |kids| then acc
    else
      var child := kids[i];
      if child != -1 && child !in visited then
        var c := TreeStats(store, maxKeys, child, height + 1, visited);
        ChildStats(store, maxKeys, kids, i + 1, height, visited,
                   Stats(Max(acc.height, c.height), acc.nodes + c.nodes, acc.slots + c.slots, acc.used + c.used))
      else ChildStats(store, maxKeys, kids, i + 1, height, visited, acc)
  }

  /** Numbers that add up as the statistics promise: `maxKeys` slots per
      node, no more used slots than slots, and a height above the starting
      one exactly when some node was counted. */
  predicate Consistent(r: Stats, maxKeys: int, height: int) {
    && r.nodes >= 0 && r.slots == maxKeys * r.nodes && 0 <= r.used <= r.slots
    && (r.nodes > 0 ==> r.height > height)
  }

  /** Whatever the store holds, the statistics are consistent: the fill
      rate `used / slots` never exceeds one. */
  lemma {:induction false} TreeStatsConsistent(store: map<int, Node>, maxKeys: int, id: int, height: int, visited: set<int>)
    requires StoreWf(store, maxKeys) && IsInt32(id)
    ensures Consistent(TreeStats(store, maxKeys, id, height, visited), maxKeys, height)
    decreases Int32Ids() - visited, 0, 0
  {
    if 0 <= id && id !in visited {
      match Load(store, maxKeys, id)
      case LeafPage(s) =>
      case InternalPage(s) =>
        assert id in Int32Ids();
        ChildStatsConsistent(store, maxKeys, Internals.Children(s), 0, height, visited + {id},
                             Stats(height + 1, 1, maxKeys, s.keyCount));
      case OtherPage(_) =>
    }
  }

  /** Adding a child's consistent numbers to consistent numbers keeps them so. */
  lemma AddConsistent(acc: Stats, c: Stats, maxKeys: int, height: int)
    requires Consistent(acc, maxKeys, height) && acc.nodes > 0 && Consistent(c, maxKeys, height + 1)
    ensures var next := Stats(Max(acc.height, c.height), acc.nodes + c.nodes, acc.slots + c.slots, acc.used + c.used);
            Consistent(next, maxKeys, height) && next.nodes > 0
  {
    assert maxKeys * (acc.nodes + c.nodes) == maxKeys * acc.nodes + maxKeys * c.nodes;
  }

  lemma {:induction false} ChildStatsConsistent(store: map<int, Node>, maxKeys: int, kids: seq<int>, i: nat,
                                                 height: int, visited: set<int>, acc: Stats)
    requires StoreWf(store, maxKeys) && i <= |kids|
    requires forall k :: 0 <= k < |kids| ==> IsInt32(kids[k])
    requires Consistent(acc, maxKeys, height) && acc.nodes > 0
    ensures Consistent(ChildStats(store, maxKeys, kids, i, height, visited, acc), maxKeys, height)
    decreases Int32Ids() - visited, 1, |kids| - i
  {
    if i < |kids| {
      var child := kids[i];
      if child != -1 && child !in visited {
        var c := TreeStats(store, maxKeys, child, height + 1, visited);
        TreeStatsConsistent(store, maxKeys, child, height + 1, visited);
        var next := Stats(Max(acc.height, c.height), acc.nodes + c.nodes, acc.slots + c.slots, acc.used + c.used);
        AddConsistent(acc, c, maxKeys, height);
        ChildStatsConsistent(store, maxKeys, kids, i + 1, height, visited, next);
      } else {
        ChildStatsConsistent(store, maxKeys, kids, i + 1, height, visited, acc);
      }
    }
  }

  // ---------------------------------------------------------------------
  // validateNode
  // ---------------------------------------------------------------------

  /** What `validateNode` produces: its outcome, and the warnings it prints
      for pages whose parent pointer differs from the page that led to them,
      as (page, expected parent) pairs. */
  datatype Check = Check(outcome: Outcome, warnings: seq<(int, int)>)

  /** `validateNode(id, expected, visited, depth)`: too deep fails; a
      negative or revisited page passes; an internal node listing itself
      among its children fails; otherwise the children are checked in
      order, stopping at the first failure. */
  function Validate(store: map<int, Node>, maxKeys: int, id: int, expected: int, visited: set<int>, depth: nat): (r: Check)
    requires StoreWf(store, maxKeys)
    decreases MAX_DEPTH + 1 - depth, 1, 0
  {
    if depth > MAX_DEPTH then Check(Fail(DepthExceeded), [])
    else if id < 0 || id in visited then Check(Pass, [])
    else match Load(store, maxKeys, id)
      case InternalPage(s) =>
        var w := if s.parent != expected then [(id, expected)] else [];
        if id in Internals.Children(s) then Check(Fail(SelfReference), w)
        else ValidateKids(store, maxKeys, Internals.Children(s), 0, id, visited + {id}, depth, w)
      case LeafPage(s) => Check(Pass, if s.parent != expected then [(id, expected)] else [])
      case OtherPage(_) => Check(Pass, [])
  }

  /** The recursion loop of `validateNode` over `kids` from child `i`, with
      the warnings `acc` printed so far. */
  function ValidateKids(store: map<int, Node>, maxKeys: int, kids: seq<int>, i: nat, parent: int,
                        visited: set<int>, depth: nat, acc: seq<(int, int)>): (r: Check)
    requires StoreWf(store, maxKeys) && i <= |kids| && depth <= MAX_DEPTH
    decreases MAX_DEPTH + 1 - depth, 0, |kids| - i
  {
    if i == |kids| then Check(Pass, acc)
    else if kids[i] == -1 then ValidateKids(store, maxKeys, kids, i + 1, parent, visited, depth, acc)
    else
      var c := Validate(store, maxKeys, kids[i], parent, visited, depth + 1);
      if c.outcome.Fail? then Check(c.outcome, acc + c.warnings)
      else ValidateKids(store, maxKeys, kids, i + 1, parent, visited, depth, acc + c.warnings)
  }

  /** A warning is justified: the page is a leaf or internal node whose
      parent pointer is not the expected parent, and the pair is either the
      start of the walk with its expected parent, or a child listed by the
      internal node that led to it. */
  ghost predicate Justified(store: map<int, Node>, maxKeys: int, start: int, expected: int, w: (int, int))
    requires StoreWf(store, maxKeys)
  {
    var (x, e) := w;
    var n := Load(store, maxKeys, x);
    && !n.OtherPage? && ParentOf(n) != e
    && ((x == start && e == expected)
        || (Load(store, maxKeys, e).InternalPage? && x in Internals.Children(Load(store, maxKeys, e).internal)))
  }

  /** Validation fails only for depth or a self-reference, and every
      warning it prints is justified. */
  lemma {:induction false} ValidateSound(store: map<int, Node>, maxKeys: int, id: int, expected: int,
                                          visited: set<int>, depth: nat)
    requires StoreWf(store, maxKeys)
    ensures var r := Validate(store, maxKeys, id, expected, visited, depth);
            && (r.outcome.Fail? ==> r.outcome.error == DepthExceeded || r.outcome.error == SelfReference)
            && forall k :: 0 <= k < |r.warnings| ==> Justified(store, maxKeys, id, expected, r.warnings[k])
    decreases MAX_DEPTH + 1 - depth, 1, 0
  {
    if depth <= MAX_DEPTH && 0 <= id && id !in visited {
      match Load(store, maxKeys, id)
      case InternalPage(s) =>
        var w := if s.parent != expected then [(id, expected)] else [];
        if id !in Internals.Children(s) {
          ValidateKidsSound(store, maxKeys, Internals.Children(s), 0, id, visited + {id}, depth, w, id, expected);
        }
      case LeafPage(s) =>
      case OtherPage(_) =>
    }
  }

  lemma {:induction false} ValidateKidsSound(store: map<int, Node>, maxKeys: int, kids: seq<int>, i: nat, parent: int,
                                              visited: set<int>, depth: nat, acc: seq<(int, int)>,
                                              start: int, expected: int)
    requires StoreWf(store, maxKeys) && i <= |kids| && depth <= MAX_DEPTH
    requires Load(store, maxKeys, parent).InternalPage?
    requires kids == Internals.Children(Load(store, maxKeys, parent).internal)
    requires forall k :: 0 <= k < |acc| ==> Justified(store, maxKeys, start, expected, acc[k])
    ensures var r := ValidateKids(store, maxKeys, kids, i, parent, visited, depth, acc);
            && (r.outcome.Fail? ==> r.outcome.error == DepthExceeded || r.outcome.error == SelfReference)
            && forall k :: 0 <= k < |r.warnings| ==> Justified(store, maxKeys, start, expected, r.warnings[k])
    decreases MAX_DEPTH + 1 - depth, 0, |kids| - i
  {
    if i < |kids| {
      if kids[i] == -1 {
        ValidateKidsSound(store, maxKeys, kids, i + 1, parent, visited, depth, acc, start, expected);
      } else {
        var c := Validate(store, maxKeys, kids[i], parent, visited, depth + 1);
        ValidateSound(store, maxKeys, kids[i], parent, visited, depth + 1);
        var acc' := acc + c.warnings;
        forall k | 0 <= k < |acc'|
          ensures Justified(store, maxKeys, start, expected, acc'[k])
        {
          if k >= |acc| {
            assert acc'[k] == c.warnings[k - |acc|];
            assert Justified(store, maxKeys, kids[i], parent, acc'[k]);
          }
        }
        if c.outcome.Pass? {
          ValidateKidsSound(store, maxKeys, kids, i + 1, parent, visited, depth, acc', start, expected);
        }
      }
    }
  }

  /** The detection half at one page: a page the walk checks (within
      depth, not negative, not on the path) that is a leaf or internal
      node with the wrong parent pointer is warned about, even when the
      walk below it fails. */
  lemma {:induction false} ValidateWarnsSelf(store: map<int, Node>, maxKeys: int, id: int, expected: int,
                          visited: set<int>, depth: nat)
    requires StoreWf(store, maxKeys)
    requires depth <= MAX_DEPTH && 0 <= id && id !in visited
    requires !Load(store, maxKeys, id).OtherPage? && ParentOf(Load(store, maxKeys, id)) != expected
    ensures (id, expected) in Validate(store, maxKeys, id, expected, visited, depth).warnings
    decreases MAX_DEPTH + 1 - depth, 1
  {
    match Load(store, maxKeys, id)
    case InternalPage(s) =>
      var w := [(id, expected)];
      if id !in Internals.Children(s) {
        ValidateKidsDetects(store, maxKeys, Internals.Children(s), 0, id, visited + {id}, depth, w);
      }
    case LeafPage(s) =>
  }

  /** The child loop keeps every warning printed before it; when it
      passes, every child it visits passed, each child's warnings are among
      its own, and each child on a page of its own whose parent pointer is
      not `parent` is warned about. */
  lemma {:induction false} ValidateKidsDetects(store: map<int, Node>, maxKeys: int, kids: seq<int>, i: nat, parent: int,
                                                visited: set<int>, depth: nat, acc: seq<(int, int)>)
    requires StoreWf(store, maxKeys) && i <= |kids| && depth <= MAX_DEPTH
    ensures var r := ValidateKids(store, maxKeys, kids, i, parent, visited, depth, acc);
            && (forall x :: x in acc ==> x in r.warnings)
            && (r.outcome.Pass? ==>
                  forall j :: i <= j < |kids| && kids[j] != -1 ==>
                    var c := Validate(store, maxKeys, kids[j], parent, visited, depth + 1);
                    c.outcome.Pass? && forall x :: x in c.warnings ==> x in r.warnings)
            && (r.outcome.Pass? ==>
                  forall j :: (i <= j < |kids| && 0 <= kids[j] && kids[j] !in visited
                               && !Load(store, maxKeys, kids[j]).OtherPage?
                               && ParentOf(Load(store, maxKeys, kids[j])) != parent) ==>
                    (kids[j], parent) in r.warnings)
    decreases MAX_DEPTH + 1 - depth, 0, |kids| - i
  {
    var r := ValidateKids(store, maxKeys, kids, i, parent, visited, depth, acc);
    if i < |kids| {
      if kids[i] == -1 {
        ValidateKidsDetects(store, maxKeys, kids, i + 1, parent, visited, depth, acc);
        assert r == ValidateKids(store, maxKeys, kids, i + 1, parent, visited, depth, acc);
      } else {
        var c := Validate(store, maxKeys, kids[i], parent, visited, depth + 1);
        var acc' := acc + c.warnings;
        if c.outcome.Pass? {
          ValidateKidsDetects(store, maxKeys, kids, i + 1, parent, visited, depth, acc');
          assert r == ValidateKids(store, maxKeys, kids, i + 1, parent, visited, depth, acc');
          assert forall x :: x in acc' ==> x in r.warnings;
          if 0 <= kids[i] && kids[i] !in visited && !Load(store, maxKeys, kids[i]).OtherPage?
             && ParentOf(Load(store, maxKeys, kids[i])) != parent {
            ValidateWarnsSelf(store, maxKeys, kids[i], parent, visited, depth + 1);
            assert (kids[i], parent) in acc';
          }
        } else {
          assert r == Check(c.outcome, acc');
        }
      }
    }
  }

  /** The detection half of `validateNode`: the page checked is warned
      about when its parent pointer is wrong; and when the check of an
      internal node passes, every child it lists passed its own check, with
      the child's warnings kept, and every child on a page of its own that
      does not point back at the node is warned about. */
  lemma ValidateDetects(store: map<int, Node>, maxKeys: int, id: int, expected: int,
                        visited: set<int>, depth: nat)
    requires StoreWf(store, maxKeys)
    ensures var r := Validate(store, maxKeys, id, expected, visited, depth);
            && ((depth <= MAX_DEPTH && 0 <= id && id !in visited && !Load(store, maxKeys, id).OtherPage?
                 && ParentOf(Load(store, maxKeys, id)) != expected) ==> (id, expected) in r.warnings)
            && (r.outcome.Pass? && depth <= MAX_DEPTH && 0 <= id && id !in visited
                && Load(store, maxKeys, id).InternalPage? ==>
                  var kids := Internals.Children(Load(store, maxKeys, id).internal);
                  && (forall j :: 0 <= j < |kids| && kids[j] != -1 ==>
                        var c := Validate(store, maxKeys, kids[j], id, visited + {id}, depth + 1);
                        c.outcome.Pass? && forall x :: x in c.warnings ==> x in r.warnings)
                  && (forall j :: (0 <= j < |kids| && 0 <= kids[j] && kids[j] !in visited + {id}
                                   && !Load(store, maxKeys, kids[j]).OtherPage?
                                   && ParentOf(Load(store, maxKeys, kids[j])) != id) ==>
                        (kids[j], id) in r.warnings))
  {
    if depth <= MAX_DEPTH && 0 <= id && id !in visited {
      if !Load(store, maxKeys, id).OtherPage? && ParentOf(Load(store, maxKeys, id)) != expected {
        ValidateWarnsSelf(store, maxKeys, id, expected, visited, depth);
      }
      match Load(store, maxKeys, id)
      case InternalPage(s) =>
        var w := if s.parent != expected then [(id, expected)] else [];
        if id !in Internals.Children(s) {
          ValidateKidsDetects(store, maxKeys, Internals.Children(s), 0, id, visited + {id}, depth, w);
        }
      case LeafPage(_) =>
      case OtherPage(_) =>
    }
  }

  // ---------------------------------------------------------------------
  // Java int arithmetic, calculateMaxKeys and the metadata header
  // ---------------------------------------------------------------------

  /** Java's `v + 1` on an `int`: the largest int wraps to the smallest. */
  function Inc32(v: int): (r: int)
    requires IsInt32(v)
    ensures IsInt32(r) && (v < 0x7fff_ffff ==> r == v + 1)
  {
    if v == 0x7fff_ffff then -0x8000_0000 else v + 1
  }

  /** Java's `/` on ints: the quotient truncated toward zero. */
  function JavaDiv(a: int, b: int): int
    requires b > 0
  {
    if a >= 0 then a / b else -((-a) / b)
  }

  lemma MulLe(b: int, x: int, y: int)
    requires b > 0 && x <= y
    ensures b * x <= b * y
  {
    assert b * y - b * x == b * (y - x);
  }

  lemma {:induction false} DivMonotone(a: int, c: int, b: int)
    requires b > 0 && 0 <= a <= c
    ensures a / b <= c / b
  {
    if a / b > c / b {
      MulLe(b, c / b + 1, a / b);
    }
  }

  /** Truncating division by a positive divisor is monotone. */
  lemma {:induction false} JavaDivMonotone(a: int, c: int, b: int)
    requires b > 0 && a <= c
    ensures JavaDiv(a, b) <= JavaDiv(c, b)
  {
    if 0 <= a {
      DivMonotone(a, c, b);
    } else if c < 0 {
      DivMonotone(-c, -a, b);
    } else {
      DivMonotone(0, -a, b);
      DivMonotone(0, c, b);
      assert 0 / b == 0;
    }
  }

  /** `calculateMaxKeys(pageSize)`: the space after the 16-byte header
      (an `int` subtraction, which wraps below the smallest int) over 324
      bytes per entry, less ten percent, clamped to [3, 20]. The
      `(int) (maxKeys * 0.9)` is `maxKeys * 9 / 10` here. */
  function CalculateMaxKeys(pageSize: int): (m: int)
    ensures ValidMaxKeys(m)
  {
    var entries := JavaDiv(Wrap32(pageSize - 16), 324);
    Max(3, Min(JavaDiv(entries * 9, 10), 20))
  }

  /** The default page of 4096 bytes holds ten keys per node. */
  lemma MaxKeysOfDefaultPage()
    ensures CalculateMaxKeys(4096) == 10
  {
  }

  /** A larger page never gets fewer keys per node, as long as
      `pageSize - 16` does not wrap: both sizes are ints and the smaller
      one is at least the smallest int plus 16. */
  lemma MaxKeysMonotone(a: int, b: int)
    requires -0x8000_0000 + 16 <= a <= b <= 0x7fff_ffff
    ensures CalculateMaxKeys(a) <= CalculateMaxKeys(b)
  {
    assert Wrap32(a - 16) == a - 16 && Wrap32(b - 16) == b - 16;
    JavaDivMonotone(a - 16, b - 16, 324);
    var ea, eb := JavaDiv(a - 16, 324), JavaDiv(b - 16, 324);
    JavaDivMonotone(ea * 9, eb * 9, 10);
  }

  /** Below the smallest int plus 16, `pageSize - 16` wraps to a large
      positive space: the smallest int gets the 20-key cap where a page of
      no bytes gets the 3-key floor, so the size order is not kept there. */
  lemma MaxKeysWrap()
    ensures CalculateMaxKeys(-0x8000_0000) == 20 && CalculateMaxKeys(0) == 3
  {
    assert Wrap32(-0x8000_0000 - 16) == 0x7fff_fff0;
    assert Wrap32(0 - 16) == -16;
  }

  /** The 16384-byte metadata block `saveMetadata` writes: the magic
      number, root page id, next page id, split count and merge count as
      big-endian ints at offsets 0, 4, 8, 12 and 16, then zeros. */
  function MetadataBytes(root: int, next: int, splits: int, merges: int): (m: seq<Byte>)
    ensures |m| == Disk.METADATA_SIZE
  {
    EncodeInt(MAGIC) + EncodeInt(root) + EncodeInt(next) + EncodeInt(splits) + EncodeInt(merges)
      + Zeros(Disk.METADATA_SIZE - 20)
  }

  /** `ByteBuffer.getInt(offset)` on the metadata block. */
  function MetaInt(m: seq<Byte>, offset: int): (v: int)
    requires 0 <= offset && offset + 4 <= |m|
    ensures IsInt32(v)
  {
    DecodeInt(m[offset..offset + 4])
  }

  /** What `saveMetadata` writes, `create` reads back: the magic number and
      the four fields. */
  lemma MetadataRoundTrip(root: int, next: int, splits: int, merges: int)
    requires IsInt32(root) && IsInt32(next) && IsInt32(splits) && IsInt32(merges)
    ensures var m := MetadataBytes(root, next, splits, merges);
            && MetaInt(m, 0) == MAGIC && MetaInt(m, 4) == root && MetaInt(m, 8) == next
            && MetaInt(m, 12) == splits && MetaInt(m, 16) == merges
  {
    var m := MetadataBytes(root, next, splits, merges);
    assert m[0..4] == EncodeInt(MAGIC);
    assert m[4..8] == EncodeInt(root);
    assert m[8..12] == EncodeInt(next);
    assert m[12..16] == EncodeInt(splits);
    assert m[16..20] == EncodeInt(merges);
    DecodeEncodeInt(MAGIC);
    DecodeEncodeInt(root);
    DecodeEncodeInt(next);
    DecodeEncodeInt(splits);
    DecodeEncodeInt(merges);
  }

  // ---------------------------------------------------------------------
  // The full-leaf path of insertHelper
  // ---------------------------------------------------------------------

  /** What the full-leaf path writes, as (this leaf, the new leaf): the
      leaf split in two, the new leaf `newId` linked between this leaf and
      its old successor, and the entry inserted into this leaf when its key
      is below the new leaf's first key, else into the new leaf. */
  function SplitLeafInsert(s: Leaves.LeafState, key: Str, value: Option<seq<Str>>, rowId: Str, newId: int)
    : (r: (Leaves.LeafState, Leaves.LeafState))
    requires Leaves.Wf(s) && Leaves.IsFull(s) && |s.keys| >= 3 && IsInt32(newId)
    ensures Leaves.Wf(r.0) && Leaves.Wf(r.1) && |r.0.keys| == |r.1.keys| == |s.keys|
    ensures r.0.parent == s.parent && r.1.keyCount > 0
  {
    var (l0, r0) := Leaves.Split(s).value;
    var left, right := l0.(next := newId), r0.(next := s.next);
    if Less(key, right.keys[0].value) then (Leaves.Insert(left, key, value, rowId).value, right)
    else (left, Leaves.Insert(right, key, value, rowId).value)
  }

  /** The full-leaf path on a leaf whose keys never fall: both halves keep
      that order, and the new leaf's first key, the one promoted, is not
      empty. */
  lemma SplitLeafInsertRanked(s: Leaves.LeafState, key: Str, value: Option<seq<Str>>, rowId: Str, newId: int)
    requires Leaves.Ranked(s) && Leaves.IsFull(s) && |s.keys| >= 3 && IsInt32(newId)
    ensures var (l, r) := SplitLeafInsert(s, key, value, rowId, newId);
            Leaves.Ranked(l) && Leaves.Ranked(r) && r.keys[0].value != []
  {
    var (l0, r0) := Leaves.Split(s).value;
    Leaves.SplitRanked(s);
    var left, right := l0.(next := newId), r0.(next := s.next);
    assert right.keys[0] == s.keys[s.keyCount / 2];
    if Less(key, right.keys[0].value) {
      Leaves.InsertRanked(left, key, value, rowId);
    } else {
      Leaves.InsertRanked(right, key, value, rowId);
    }
  }

  /** The full-leaf path with a key that fits its slot leaves every key
      of both leaves fitting its slot. */
  lemma SplitLeafInsertKeysKept(s: Leaves.LeafState, key: Str, value: Option<seq<Str>>, rowId: Str, newId: int)
    requires Leaves.Wf(s) && LeafCodec.KeysKept(s) && Leaves.IsFull(s) && |s.keys| >= 3 && IsInt32(newId)
    requires |key| <= LeafCodec.SLOT - 4
    ensures var (l, r) := SplitLeafInsert(s, key, value, rowId, newId);
            LeafCodec.KeysKept(l) && LeafCodec.KeysKept(r)
  {
    var (l0, r0) := Leaves.Split(s).value;
    LeafCodec.SplitKeysKept(s);
    var left, right := l0.(next := newId), r0.(next := s.next);
    assert LeafCodec.KeysKept(left) && LeafCodec.KeysKept(right);
    if Less(key, right.keys[0].value) {
      LeafCodec.InsertKeysKept(left, key, value, rowId);
    } else {
      LeafCodec.InsertKeysKept(right, key, value, rowId);
    }
  }

  /** An insert into an ordered leaf with room keeps it ordered. */
  lemma InsertKeepsOrder(s: Leaves.LeafState, key: Str, value: Option<seq<Str>>, rowId: Str)
    requires Leaves.Ordered(s) && !Leaves.IsFull(s)
    ensures Leaves.Ordered(Leaves.Insert(s, key, value, rowId).value)
  {
    PresentAtCountLess(s.keys, s.keyCount, key);
    if Present(s.keys, s.keyCount, key) {
      Leaves.InsertExisting(s, key, value, rowId, CountLess(s.keys, s.keyCount, key));
    } else {
      Leaves.InsertNew(s, key, value, rowId);
    }
  }

  /** The keys a leaf holds. */
  ghost function KeysOf(s: Leaves.LeafState): set<Str>
    requires Leaves.Wf(s)
  {
    set i | 0 <= i < s.keyCount :: s.keys[i].value
  }

  /** After an insert, a leaf holds the keys it held and the inserted one. */
  lemma InsertKeysFrom(s: Leaves.LeafState, key: Str, value: Option<seq<Str>>, rowId: Str)
    requires Leaves.Ordered(s) && !Leaves.IsFull(s)
    ensures var r := Leaves.Insert(s, key, value, rowId).value;
            forall i :: 0 <= i < r.keyCount ==> r.keys[i].value == key || r.keys[i].value in KeysOf(s)
  {
    var r := Leaves.Insert(s, key, value, rowId).value;
    var p := CountLess(s.keys, s.keyCount, key);
    PresentAtCountLess(s.keys, s.keyCount, key);
    var es, rs := Leaves.Entries(s), Leaves.Entries(r);
    if Present(s.keys, s.keyCount, key) {
      Leaves.InsertExisting(s, key, value, rowId, p);
      ReplacedFrom(es, p, Leaves.Entry(key, rowId, value));
    } else {
      Leaves.InsertNew(s, key, value, rowId);
      ShiftedFrom(es, p, Leaves.Entry(key, rowId, value));
    }
    KeysFromEntries(s, r, key);
  }

  /** Every entry of `es` with one slot replaced by `e` is `e` or one of `es`. */
  lemma ReplacedFrom(es: seq<Leaves.Entry>, p: int, e: Leaves.Entry)
    requires 0 <= p < |es|
    ensures forall x :: x in es[p := e] ==> x == e || x in es
  {
    forall x | x in es[p := e] ensures x == e || x in es {
      var i :| 0 <= i < |es| && es[p := e][i] == x;
      if i != p { assert es[i] == x; }
    }
  }

  /** Every entry of `es` with `e` shifted in at `p` is `e` or one of `es`. */
  lemma ShiftedFrom(es: seq<Leaves.Entry>, p: int, e: Leaves.Entry)
    requires 0 <= p <= |es|
    ensures forall x :: x in es[..p] + [e] + es[p..] ==> x == e || x in es
  {
    forall x | x in es[..p] + [e] + es[p..] ensures x == e || x in es {
      assert x in es[..p] || x == e || x in es[p..];
    }
  }

  /** A leaf whose entries each come from `s` or carry `key` holds only
      keys of `s` and `key`. */
  lemma KeysFromEntries(s: Leaves.LeafState, r: Leaves.LeafState, key: Str)
    requires Leaves.Wf(s) && Leaves.Wf(r)
    requires forall e :: e in Leaves.Entries(r) ==> e.key == key || e in Leaves.Entries(s)
    ensures forall i :: 0 <= i < r.keyCount ==> r.keys[i].value == key || r.keys[i].value in KeysOf(s)
  {
    var es, rs := Leaves.Entries(s), Leaves.Entries(r);
    forall i | 0 <= i < r.keyCount
      ensures r.keys[i].value == key || r.keys[i].value in KeysOf(s)
    {
      if rs[i].key != key {
        var j :| 0 <= j < |es| && es[j] == rs[i];
        assert s.keys[j].value == rs[i].key;
      }
    }
  }

  /** Inserting a key not below an ordered leaf's first key keeps that
      first key. */
  lemma InsertKeepsFirst(s: Leaves.LeafState, key: Str, value: Option<seq<Str>>, rowId: Str)
    requires Leaves.Ordered(s) && !Leaves.IsFull(s) && s.keyCount > 0 && !Less(key, s.keys[0].value)
    ensures Leaves.Insert(s, key, value, rowId).value.keys[0] == s.keys[0]
  {
    var r := Leaves.Insert(s, key, value, rowId).value;
    var p := CountLess(s.keys, s.keyCount, key);
    PresentAtCountLess(s.keys, s.keyCount, key);
    CountLessSplits(s.keys, s.keyCount, key);
    if Present(s.keys, s.keyCount, key) {
      Leaves.InsertExisting(s, key, value, rowId, p);
      assert Leaves.Entries(r)[0].key == Leaves.Entries(s)[0].key;
    } else {
      LessTotal(key, s.keys[0].value);
      Leaves.InsertNew(s, key, value, rowId);
      assert Leaves.Entries(r)[0] == Leaves.Entries(s)[0];
    }
  }

  /** Every key of leaf `l` lies below every key of leaf `r`. */
  predicate Below(l: Leaves.LeafState, r: Leaves.LeafState)
    requires Leaves.Wf(l) && Leaves.Wf(r)
  {
    forall i, j :: 0 <= i < l.keyCount && 0 <= j < r.keyCount ==> Less(l.keys[i].value, r.keys[j].value)
  }

  /** A key below the right leaf's first key goes into the left leaf
      without breaking the order between the two. */
  lemma InsertLeftBelow(left: Leaves.LeafState, right: Leaves.LeafState, key: Str, value: Option<seq<Str>>, rowId: Str)
    requires Leaves.Ordered(left) && Leaves.Ordered(right) && !Leaves.IsFull(left) && right.keyCount > 0
    requires Below(left, right) && Less(key, right.keys[0].value)
    ensures Below(Leaves.Insert(left, key, value, rowId).value, right)
  {
    var l := Leaves.Insert(left, key, value, rowId).value;
    InsertKeysFrom(left, key, value, rowId);
    forall i, j | 0 <= i < l.keyCount && 0 <= j < right.keyCount
      ensures Less(l.keys[i].value, right.keys[j].value)
    {
      if l.keys[i].value == key {
        if j > 0 {
          LessTransitive(key, right.keys[0].value, right.keys[j].value);
        }
      } else {
        var x := l.keys[i].value;
        var k :| 0 <= k < left.keyCount && left.keys[k].value == x;
      }
    }
  }

  /** A key not below the right leaf's first key goes into the right leaf
      without breaking the order between the two. */
  lemma InsertRightAbove(left: Leaves.LeafState, right: Leaves.LeafState, key: Str, value: Option<seq<Str>>, rowId: Str)
    requires Leaves.Ordered(left) && Leaves.Ordered(right) && !Leaves.IsFull(right) && right.keyCount > 0
    requires Below(left, right) && !Less(key, right.keys[0].value)
    ensures Below(left, Leaves.Insert(right, key, value, rowId).value)
  {
    var r := Leaves.Insert(right, key, value, rowId).value;
    var first := right.keys[0].value;
    InsertKeysFrom(right, key, value, rowId);
    forall i, j | 0 <= i < left.keyCount && 0 <= j < r.keyCount
      ensures Less(left.keys[i].value, r.keys[j].value)
    {
      if r.keys[j].value == key {
        LessTotal(key, first);
        assert Less(left.keys[i].value, first);
        if key != first {
          LessTransitive(left.keys[i].value, first, key);
        }
      } else {
        var x := r.keys[j].value;
        var k :| 0 <= k < right.keyCount && right.keys[k].value == x;
      }
    }
  }

  /** The full-leaf path on an ordered leaf: both halves are ordered, every
      key of this leaf lies below every key of the new leaf, the links run
      this leaf, new leaf, old successor, the new leaf has no parent yet,
      and its first key, the one promoted, is its first key before the
      insert. */
  lemma SplitLeafInsertParts(s: Leaves.LeafState, key: Str, value: Option<seq<Str>>, rowId: Str, newId: int)
    requires Leaves.Ordered(s) && Leaves.IsFull(s) && |s.keys| >= 3 && IsInt32(newId)
    ensures var (l, r) := SplitLeafInsert(s, key, value, rowId, newId);
            var first := Leaves.Split(s).value.1.keys[0];
            && Leaves.Ordered(l) && Leaves.Ordered(r) && Below(l, r)
            && l.parent == s.parent && r.parent == -1 && l.next == newId && r.next == s.next
            && r.keyCount > 0 && r.keys[0] == first
            && (Less(key, first.value) ==> Leaves.Search(l, key) == [value])
            && (!Less(key, first.value) ==> Leaves.Search(r, key) == [value])
  {
    var (l0, r0) := Leaves.Split(s).value;
    Leaves.SplitEntries(s);
    var left, right := l0.(next := newId), r0.(next := s.next);
    assert Leaves.Ordered(left) && Leaves.Ordered(right) && Below(left, right);
    if Less(key, right.keys[0].value) {
      InsertKeepsOrder(left, key, value, rowId);
      Leaves.SearchAfterInsert(left, key, value, rowId);
      InsertLeftBelow(left, right, key, value, rowId);
    } else {
      InsertKeepsOrder(right, key, value, rowId);
      InsertKeepsFirst(right, key, value, rowId);
      Leaves.SearchAfterInsert(right, key, value, rowId);
      InsertRightAbove(left, right, key, value, rowId);
    }
  }

  /** Inserting into the left of two ordered leaves, a key below the
      right one's first key: a scan of both finds the new value under
      `key` and what it found before under every other key. */
  lemma LookupInsertLeft(left: Leaves.LeafState, right: Leaves.LeafState, key: Str, value: Option<seq<Str>>,
                         rowId: Str, k: Str)
    requires Leaves.Ordered(left) && Leaves.Ordered(right) && !Leaves.IsFull(left) && right.keyCount > 0
    requires Less(key, right.keys[0].value)
    ensures var l := Leaves.Insert(left, key, value, rowId).value;
            Leaves.Lookup(Leaves.Entries(l) + Leaves.Entries(right), k)
              == if k == key then [value] else Leaves.Lookup(Leaves.Entries(left) + Leaves.Entries(right), k)
  {
    var l := Leaves.Insert(left, key, value, rowId).value;
    InsertKeepsOrder(left, key, value, rowId);
    Leaves.LookupAppend(Leaves.Entries(l), Leaves.Entries(right), k);
    Leaves.LookupAppend(Leaves.Entries(left), Leaves.Entries(right), k);
    Leaves.SearchIsLookup(l, k);
    Leaves.SearchIsLookup(left, k);
    if k == key {
      Leaves.SearchAfterInsert(left, key, value, rowId);
      forall j | 0 <= j < right.keyCount
        ensures Leaves.Entries(right)[j].key != key
      {
        LessIrreflexive(key);
        if j > 0 {
          LessTransitive(key, right.keys[0].value, right.keys[j].value);
        }
      }
      Leaves.LookupNone(Leaves.Entries(right), key);
    } else {
      Leaves.SearchOtherAfterInsert(left, key, value, rowId, k);
    }
  }

  /** Inserting into the right of two ordered leaves, a key above every key
      of the left one: a scan of both finds the new value under `key` and
      what it found before under every other key. */
  lemma LookupInsertRight(left: Leaves.LeafState, right: Leaves.LeafState, key: Str, value: Option<seq<Str>>,
                          rowId: Str, k: Str)
    requires Leaves.Ordered(left) && Leaves.Ordered(right) && !Leaves.IsFull(right)
    requires forall i :: 0 <= i < left.keyCount ==> Less(left.keys[i].value, key)
    ensures var r := Leaves.Insert(right, key, value, rowId).value;
            Leaves.Lookup(Leaves.Entries(left) + Leaves.Entries(r), k)
              == if k == key then [value] else Leaves.Lookup(Leaves.Entries(left) + Leaves.Entries(right), k)
  {
    var r := Leaves.Insert(right, key, value, rowId).value;
    InsertKeepsOrder(right, key, value, rowId);
    Leaves.LookupAppend(Leaves.Entries(left), Leaves.Entries(r), k);
    Leaves.LookupAppend(Leaves.Entries(left), Leaves.Entries(right), k);
    Leaves.SearchIsLookup(r, k);
    Leaves.SearchIsLookup(right, k);
    if k == key {
      Leaves.SearchAfterInsert(right, key, value, rowId);
      forall i | 0 <= i < left.keyCount
        ensures Leaves.Entries(left)[i].key != key
      {
        LessIrreflexive(key);
      }
      Leaves.LookupNone(Leaves.Entries(left), key);
    } else {
      Leaves.SearchOtherAfterInsert(right, key, value, rowId, k);
    }
  }

  /** The two leaves together hold what the full leaf held, with `key` now
      mapped to `value`: a linear scan of their entries finds, for every
      key, what it found before, except the new value under `key`. */
  lemma SplitLeafInsertLookup(s: Leaves.LeafState, key: Str, value: Option<seq<Str>>, rowId: Str, newId: int, k: Str)
    requires Leaves.Ordered(s) && Leaves.IsFull(s) && |s.keys| >= 3 && IsInt32(newId)
    ensures var (l, r) := SplitLeafInsert(s, key, value, rowId, newId);
            Leaves.Lookup(Leaves.Entries(l) + Leaves.Entries(r), k)
              == if k == key then [value] else Leaves.Lookup(Leaves.Entries(s), k)
  {
    var (l0, r0) := Leaves.Split(s).value;
    Leaves.SplitEntries(s);
    var left, right := l0.(next := newId), r0.(next := s.next);
    assert Leaves.Entries(left) + Leaves.Entries(right) == Leaves.Entries(s);
    var first := right.keys[0].value;
    if Less(key, first) {
      LookupInsertLeft(left, right, key, value, rowId, k);
    } else {
      forall i | 0 <= i < left.keyCount
        ensures Less(left.keys[i].value, key)
      {
        LessTotal(key, first);
        if key != first {
          LessTransitive(left.keys[i].value, first, key);
        }
      }
      LookupInsertRight(left, right, key, value, rowId, k);
    }
  }
}

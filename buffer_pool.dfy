/** BufferPoolManager.java: a fixed-capacity cache of pages keyed by page id,
    kept in access order, evicting the least recently used unpinned page.
    The disk behind it is abstracted as a map from page id to page bytes in
    which an absent page reads as zeros (module Disk shows the file behaves so). */
module BufferPool {
  import opened Types
  import opened Pages

  /** The content of one page on disk. */
  type PageBytes = s: seq<Byte> | |s| == PAGE_SIZE witness Zeros(PAGE_SIZE)

  /** The bytes the disk holds for a page. */
  function DiskRead(disk: map<int, PageBytes>, pageId: int): (bytes: seq<Byte>)
    ensures |bytes| == PAGE_SIZE
  {
    if pageId in disk then disk[pageId] else Zeros(PAGE_SIZE)
  }

  predicate NoDuplicates(s: seq<int>) {
    forall i, j :: 0 <= i < j < |s| ==> s[i] != s[j]
  }

  /** The position of `x` in an access-order list. */
  function IndexOf(s: seq<int>, x: int): (k: nat)
    requires x in s
    ensures k < |s| && s[k] == x && x !in s[..k]
  {
    if s[0] == x then 0 else 1 + IndexOf(s[1..], x)
  }

  /** The list with position `k` taken out, the others keeping their order. */
  function RemoveAt(s: seq<int>, k: nat): (r: seq<int>)
    requires k < |s|
    ensures |r| == |s| - 1
    ensures forall i :: 0 <= i < k ==> r[i] == s[i]
    ensures forall i :: k <= i < |r| ==> r[i] == s[i + 1]
  {
    s[..k] + s[k + 1..]
  }

  /** Taking a distinct element out of a duplicate-free list removes exactly
      that element and keeps the list duplicate-free. */
  lemma RemoveAtContents(s: seq<int>, k: nat)
    requires k < |s| && NoDuplicates(s)
    ensures NoDuplicates(RemoveAt(s, k))
    ensures forall y :: y in RemoveAt(s, k) <==> y in s && y != s[k]
  {
    var r := RemoveAt(s, k);
    forall y | y in s && y != s[k]
      ensures y in r
    {
      var i :| 0 <= i < |s| && s[i] == y;
      if i < k { assert r[i] == y; } else { assert r[i - 1] == y; }
    }
  }

  /** The access-order list holds each resident id exactly once and nothing else. */
  ghost predicate Tracks(table: map<int, Page>, lru: seq<int>) {
    && NoDuplicates(lru)
    && (forall i :: 0 <= i < |lru| ==> lru[i] in table)
    && (forall id :: id in table ==> id in lru)
  }

  /** Each resident page is a page-size buffer filed under its own id; so no
      page is filed under two ids. */
  ghost predicate Filed(table: map<int, Page>) {
    forall id :: id in table ==> table[id].Valid() && table[id].pageId == id
  }

  /** A hit moves the page to the most recently used end. */
  lemma TrackTouch(table: map<int, Page>, lru: seq<int>, id: int)
    requires Tracks(table, lru) && id in table
    ensures Tracks(table, RemoveAt(lru, IndexOf(lru, id)) + [id])
  {
    var k := IndexOf(lru, id);
    RemoveAtContents(lru, k);
    var r := RemoveAt(lru, k) + [id];
    forall x | x in table
      ensures x in r
    {
      if x != id {
        assert x in RemoveAt(lru, k);
      } else {
        assert r[|r| - 1] == id;
      }
    }
  }

  /** A page read on a miss enters at the most recently used end. */
  lemma TrackAdmit(table: map<int, Page>, lru: seq<int>, page: Page)
    requires Tracks(table, lru) && Filed(table) && page.Valid() && page.pageId !in table
    ensures Tracks(table[page.pageId := page], lru + [page.pageId])
    ensures Filed(table[page.pageId := page])
    ensures |table[page.pageId := page]| == |table| + 1
  {
    var id := page.pageId;
    var r := lru + [id];
    assert table[id := page].Keys == table.Keys + {id};
    assert id !in lru;
    forall x | x in table[id := page]
      ensures x in r
    {
      if x != id {
        assert x in lru;
      } else {
        assert r[|r| - 1] == id;
      }
    }
  }

  /** Eviction takes the id at position `k` out of both the table and the list. */
  lemma TrackEvict(table: map<int, Page>, lru: seq<int>, k: nat)
    requires Tracks(table, lru) && Filed(table) && k < |lru|
    ensures Tracks(table - {lru[k]}, RemoveAt(lru, k)) && Filed(table - {lru[k]})
    ensures |table - {lru[k]}| == |table| - 1
  {
    RemoveAtContents(lru, k);
    assert table.Keys == (table - {lru[k]}).Keys + {lru[k]};
  }

  class BufferPoolManager {
    const poolSize: int
    /** Resident pages by id (`pageTable`). */
    var pageTable: map<int, Page>
    /** Resident ids from least to most recently used (`lruList`'s access order). */
    var lruList: seq<int>
    /** The disk behind the pool. */
    var disk: map<int, PageBytes>
    var pageAccessCount: int

    ghost predicate Valid()
      reads this`pageTable, this`lruList
    {
      && poolSize >= 1
      && Tracks(pageTable, lruList) && Filed(pageTable)
      && |pageTable| <= poolSize
    }

    constructor (poolSize: int, disk: map<int, PageBytes>)
      requires poolSize >= 1
      ensures Valid()
      ensures this.poolSize == poolSize && this.disk == disk
      ensures pageTable == map[] && lruList == [] && pageAccessCount == 0
    {
      this.poolSize := poolSize;
      this.disk := disk;
      pageTable := map[];
      lruList := [];
      pageAccessCount := 0;
    }

    /** The position in `lruList` of the least recently used unpinned page. */
    function FirstUnpinned(): (k: Option<nat>)
      requires Valid()
      reads this`pageTable, this`lruList, pageTable.Values
      ensures k.Some? ==> k.value < |lruList| && pageTable[lruList[k.value]].pinCount == 0
      ensures k.Some? ==> forall i :: 0 <= i < k.value ==> pageTable[lruList[i]].pinCount != 0
      ensures k.None? ==> forall id :: id in pageTable ==> pageTable[id].pinCount != 0
    {
      FirstUnpinnedFrom(0)
    }

    function FirstUnpinnedFrom(start: nat): (k: Option<nat>)
      requires Valid() && start <= |lruList|
      reads this`pageTable, this`lruList, pageTable.Values
      decreases |lruList| - start
      ensures k.Some? ==> start <= k.value < |lruList| && pageTable[lruList[k.value]].pinCount == 0
      ensures k.Some? ==> forall i :: start <= i < k.value ==> pageTable[lruList[i]].pinCount != 0
      ensures k.None? ==> forall i :: start <= i < |lruList| ==> pageTable[lruList[i]].pinCount != 0
    {
      if start == |lruList| then None
      else if pageTable[lruList[start]].pinCount == 0 then Some(start)
      else FirstUnpinnedFrom(start + 1)
    }

    /** The page read on a miss: it holds `bytes`, is filed under its id,
        is clean and is pinned once. */
    ghost predicate Loaded(page: Page, pageId: int, bytes: seq<Byte>)
      reads page, page.data
    {
      page.Valid() && page.pageId == pageId && page.data[..] == bytes && page.pinCount == 1 && !page.dirty
    }

    /** Whether a page read on a miss can enter: the pool has a free slot,
        or it has an unpinned page to evict. */
    ghost predicate HasRoom()
      requires Valid()
      reads this`pageTable, this`lruList, pageTable.Values
    {
      |pageTable| < poolSize || FirstUnpinned().Some?
    }

    /** The table once room is made: as it is when a slot is free,
        otherwise without the least recently used unpinned page. */
    ghost function RoomTable(): map<int, Page>
      requires Valid() && HasRoom()
      reads this`pageTable, this`lruList, pageTable.Values
    {
      if |pageTable| < poolSize then pageTable else pageTable - {lruList[FirstUnpinned().value]}
    }

    /** The access-order list once room is made. */
    ghost function RoomList(): seq<int>
      requires Valid() && HasRoom()
      reads this`pageTable, this`lruList, pageTable.Values
    {
      if |pageTable| < poolSize then lruList else RemoveAt(lruList, FirstUnpinned().value)
    }

    /** The disk once room is made: an evicted page that was dirty has been
        written back. */
    ghost function RoomDisk(): map<int, PageBytes>
      requires Valid() && HasRoom()
      reads this`pageTable, this`lruList, this`disk, pageTable.Values, set id | id in pageTable :: pageTable[id].data
    {
      if |pageTable| < poolSize then disk
      else
        var victim := lruList[FirstUnpinned().value];
        if pageTable[victim].dirty then disk[victim := pageTable[victim].data[..]] else disk
    }

    /** `fetchPage`. A negative id fails and changes nothing. Otherwise the
        access counter goes up by one; a resident page is pinned again and
        becomes most recently used; a missing page is read from disk, after
        an eviction when the pool is full, and enters the pool pinned once. */
    method FetchPage(pageId: int) returns (r: Result<Page>)
      requires Valid()
      modifies this`pageTable, this`lruList, this`disk, this`pageAccessCount, pageTable.Values
      ensures Valid()
      ensures pageId >= 0 ==> pageAccessCount == Wrap32(old(pageAccessCount) + 1)
      ensures if pageId < 0 then
                r == Err(InvalidPageId) && unchanged(this) && forall id :: id in pageTable ==> unchanged(pageTable[id])
              else if pageId in old(pageTable) then
                // a hit
                && r == Ok(old(pageTable[pageId]))
                && r.value.pinCount == Wrap32(old(r.value.pinCount) + 1) && r.value.dirty == old(r.value.dirty)
                && pageTable == old(pageTable) && disk == old(disk)
                && lruList == RemoveAt(old(lruList), IndexOf(old(lruList), pageId)) + [pageId]
                && (forall id :: id in pageTable && id != pageId ==> unchanged(pageTable[id]))
              else
                // a miss: it fails exactly when the pool is full and every page is pinned
                && (r.Err? <==> |old(pageTable)| >= poolSize
                                && forall id :: id in old(pageTable) ==> old(pageTable[id].pinCount) != 0)
                && (r.Ok? ==>
                      && fresh(r.value) && Loaded(r.value, pageId, DiskRead(old(disk), pageId))
                      && pageTable == old(RoomTable())[pageId := r.value]
                      && lruList == old(RoomList()) + [pageId]
                      && disk == old(RoomDisk()))
                && (r.Err? ==>
                      && r.error == NoEvictablePage
                      && pageTable == old(pageTable) && lruList == old(lruList) && disk == old(disk))
                && (forall id :: id in pageTable && id != pageId ==> unchanged(pageTable[id]))
    {
      if pageId < 0 {
        return Err(InvalidPageId);
      }
      if pageId in pageTable {
        r := FetchResident(pageId);
      } else {
        r := FetchMissing(pageId);
      }
    }

    /** The hit path of `fetchPage`. */
    method FetchResident(pageId: int) returns (r: Result<Page>)
      requires Valid() && pageId in pageTable
      modifies this`lruList, this`pageAccessCount, pageTable[pageId]
      ensures Valid() && pageAccessCount == Wrap32(old(pageAccessCount) + 1)
      ensures r == Ok(old(pageTable[pageId])) && r.value.pinCount == Wrap32(old(r.value.pinCount) + 1)
      ensures r.value.dirty == old(r.value.dirty)
      ensures lruList == RemoveAt(old(lruList), IndexOf(old(lruList), pageId)) + [pageId]
      ensures forall id :: id in pageTable && id != pageId ==> unchanged(pageTable[id])
    {
      pageAccessCount := Wrap32(pageAccessCount + 1);
      var page := pageTable[pageId];
      page.Pin();
      TrackTouch(pageTable, lruList, pageId);
      lruList := RemoveAt(lruList, IndexOf(lruList, pageId)) + [pageId];
      r := Ok(page);
    }

    /** `diskManager.readPage`: a fresh, clean, unpinned page holding the stored bytes. */
    method ReadFromDisk(pageId: int) returns (page: Page)
      requires Valid()
      ensures fresh(page) && page.Valid() && page.pageId == pageId
      ensures page.data[..] == DiskRead(disk, pageId)
      ensures page.pinCount == 0 && !page.dirty
      ensures Valid() && HasRoom() == old(HasRoom())
      ensures old(HasRoom()) ==> RoomTable() == old(RoomTable()) && RoomList() == old(RoomList())
                                 && RoomDisk() == old(RoomDisk())
    {
      var stored := DiskRead(disk, pageId);
      var data := new Byte[PAGE_SIZE](i => if 0 <= i < |stored| then stored[i] else 0);
      page := new Page.Wrap(pageId, data);
      assert data[..] == stored;
    }

    /** Enters a page that is not resident into the table and at the
        most recently used end of the list. */
    method Admit(page: Page)
      requires Valid() && page.Valid() && page.pageId !in pageTable && |pageTable| < poolSize
      requires page !in pageTable.Values
      modifies this`pageTable, this`lruList
      ensures Valid()
      ensures pageTable == old(pageTable)[page.pageId := page] && lruList == old(lruList) + [page.pageId]
    {
      TrackAdmit(pageTable, lruList, page);
      pageTable := pageTable[page.pageId := page];
      lruList := lruList + [page.pageId];
    }

    /** The miss path of `fetchPage`: the access is counted and the page is
        read in. `fetchPage` counts first; no step of the read looks at the
        counter, so counting after it ends in the same state. */
    method FetchMissing(pageId: int) returns (r: Result<Page>)
      requires Valid() && pageId >= 0 && pageId !in pageTable
      modifies this`pageTable, this`lruList, this`disk, this`pageAccessCount, pageTable.Values
      ensures Valid() && pageAccessCount == Wrap32(old(pageAccessCount) + 1)
      ensures r.Err? <==> |old(pageTable)| >= poolSize
                          && forall id :: id in old(pageTable) ==> old(pageTable[id].pinCount) != 0
      ensures r.Ok? ==>
                && fresh(r.value) && Loaded(r.value, pageId, DiskRead(old(disk), pageId))
                && pageTable == old(RoomTable())[pageId := r.value]
                && lruList == old(RoomList()) + [pageId]
                && disk == old(RoomDisk())
      ensures r.Err? ==>
                && r.error == NoEvictablePage
                && pageTable == old(pageTable) && lruList == old(lruList) && disk == old(disk)
      ensures forall id :: id in pageTable && id != pageId ==> unchanged(pageTable[id])
    {
      r := ReadIn(pageId);
      pageAccessCount := Wrap32(pageAccessCount + 1);
    }

    /** A page that is not resident read from disk and entered, once room
        is made for it. */
    method ReadIn(pageId: int) returns (r: Result<Page>)
      requires Valid() && pageId >= 0 && pageId !in pageTable
      modifies this`pageTable, this`lruList, this`disk, pageTable.Values
      ensures Valid()
      ensures r.Err? <==> |old(pageTable)| >= poolSize
                          && forall id :: id in old(pageTable) ==> old(pageTable[id].pinCount) != 0
      ensures r.Ok? ==>
                && fresh(r.value) && Loaded(r.value, pageId, DiskRead(old(disk), pageId))
                && pageTable == old(RoomTable())[pageId := r.value]
                && lruList == old(RoomList()) + [pageId]
                && disk == old(RoomDisk())
      ensures r.Err? ==>
                && r.error == NoEvictablePage
                && pageTable == old(pageTable) && lruList == old(lruList) && disk == old(disk)
      ensures forall id :: id in pageTable && id != pageId ==> unchanged(pageTable[id])
    {
      assert !HasRoom() <==> |pageTable| >= poolSize && forall id :: id in pageTable ==> pageTable[id].pinCount != 0;
      var page := ReadFromDisk(pageId);
      var room := Install(page);
      r := if room then Ok(page) else Err(NoEvictablePage);
    }

    /** Makes room for a page read on a miss, then pins it and enters it as
        the most recently used. */
    method Install(page: Page) returns (room: bool)
      requires Valid() && page.Valid() && page.pageId !in pageTable && page.pinCount == 0
      requires page !in pageTable.Values
      modifies this`pageTable, this`lruList, this`disk, pageTable.Values, page`pinCount
      ensures Valid()
      ensures room == old(HasRoom())
      ensures room ==>
                && page.pinCount == 1
                && pageTable == old(RoomTable())[page.pageId := page]
                && lruList == old(RoomList()) + [page.pageId]
                && disk == old(RoomDisk())
      ensures !room ==>
                && page.pinCount == 0
                && pageTable == old(pageTable) && lruList == old(lruList) && disk == old(disk)
      ensures forall id :: id in pageTable && id != page.pageId ==> unchanged(pageTable[id])
    {
      room := MakeRoom();
      if room {
        page.Pin();
        Admit(page);
      }
    }

    /** The check before a page enters: when the pool is full, one page is
        evicted; failing that, every resident page is pinned. */
    method MakeRoom() returns (room: bool)
      requires Valid()
      modifies this`pageTable, this`lruList, this`disk, pageTable.Values
      ensures Valid()
      ensures room == old(HasRoom())
      ensures room ==> pageTable == old(RoomTable()) && lruList == old(RoomList()) && disk == old(RoomDisk())
      ensures room ==> |pageTable| < poolSize && pageTable.Values <= old(pageTable.Values)
      ensures !room ==> pageTable == old(pageTable) && lruList == old(lruList) && disk == old(disk)
      ensures forall id :: id in pageTable ==> unchanged(pageTable[id])
    {
      if |pageTable| < poolSize {
        return true;
      }
      room := EvictPage();
    }

    /** `unpinPage`: drops one pin and marks the page dirty when asked; it
        never clears the flag, and does nothing for an id that is not resident. */
    method UnpinPage(pageId: int, isDirty: bool)
      requires Valid()
      modifies pageTable.Values
      ensures Valid()
      ensures pageId in pageTable ==>
                pageTable[pageId].pinCount == Wrap32(old(pageTable[pageId].pinCount) - 1)
                && pageTable[pageId].dirty == (old(pageTable[pageId].dirty) || isDirty)
      ensures forall p :: p in pageTable.Values && (pageId !in pageTable || p != pageTable[pageId]) ==> unchanged(p)
    {
      if pageId in pageTable {
        var page := pageTable[pageId];
        page.Unpin();
        if isDirty {
          page.dirty := true;
        }
      }
    }

    /** `flushPage`: writes a resident dirty page to disk and reports whether it wrote. */
    method FlushPage(pageId: int) returns (wrote: bool)
      requires Valid()
      modifies this`disk, pageTable.Values`dirty
      ensures Valid()
      ensures wrote <==> pageId in pageTable && old(pageTable[pageId].dirty)
      ensures wrote ==> disk == old(disk)[pageId := pageTable[pageId].data[..]] && !pageTable[pageId].dirty
      ensures !wrote ==> disk == old(disk)
      ensures forall id :: id in pageTable && (!wrote || id != pageId) ==> unchanged(pageTable[id])
    {
      if pageId in pageTable && pageTable[pageId].dirty {
        WriteBack(pageTable[pageId]);
        return true;
      }
      return false;
    }

    /** `diskManager.writePage` for a resident page: the disk takes its bytes
        and the page is clean. */
    method WriteBack(page: Page)
      requires Valid() && page.pageId in pageTable && pageTable[page.pageId] == page
      modifies this`disk, page`dirty
      ensures Valid()
      ensures disk == old(disk)[page.pageId := page.data[..]] && !page.dirty
    {
      disk := disk[page.pageId := page.data[..]];
      page.dirty := false;
    }

    /** `flushAllPages`: every dirty resident page is written, and afterwards
        none is dirty; the disk changes at exactly those ids. */
    method FlushAllPages()
      requires Valid()
      modifies this`disk, pageTable.Values`dirty
      ensures Valid()
      ensures forall id :: id in pageTable ==> !pageTable[id].dirty
      ensures forall id :: id in pageTable && old(pageTable[id].dirty) ==> id in disk && disk[id] == pageTable[id].data[..]
      ensures forall id :: id !in pageTable || !old(pageTable[id].dirty) ==>
                (id in disk <==> id in old(disk)) && (id in disk ==> disk[id] == old(disk)[id])
    {
      // `flushAllPages` walks pageTable.values(); lruList holds the same ids.
      ghost var wasDirty := map id | id in pageTable :: pageTable[id].dirty;
      ghost var written: set<int> := {};
      var i := 0;
      while i < |lruList|
        invariant Valid() && 0 <= i <= |lruList|
        invariant forall j :: 0 <= j < i ==>
                    !pageTable[lruList[j]].dirty && (wasDirty[lruList[j]] ==> lruList[j] in written)
        invariant forall j :: i <= j < |lruList| ==>
                    pageTable[lruList[j]].dirty == wasDirty[lruList[j]] && lruList[j] !in written
        invariant forall id :: id in written ==>
                    id in pageTable && wasDirty[id] && id in disk && disk[id] == pageTable[id].data[..]
        invariant forall id :: id !in written ==>
                    (id in disk <==> id in old(disk)) && (id in disk ==> disk[id] == old(disk)[id])
      {
        var id := lruList[i];
        var wrote := FlushPage(id);
        if wrote {
          written := written + {id};
        }
        i := i + 1;
      }
      forall id | id in pageTable
        ensures !pageTable[id].dirty && (wasDirty[id] ==> id in written)
      {
        var k := IndexOf(lruList, id);
      }
    }

    /** `evictPage`: removes the least recently used unpinned page, writing it
        first when dirty; fails, changing nothing, when every resident page is pinned. */
    method EvictPage() returns (evicted: bool)
      requires Valid()
      modifies this`pageTable, this`lruList, this`disk, pageTable.Values
      ensures Valid()
      ensures evicted <==> old(FirstUnpinned()).Some?
      ensures !evicted ==> pageTable == old(pageTable) && lruList == old(lruList) && disk == old(disk)
      ensures evicted ==>
                var k := old(FirstUnpinned()).value;
                var victim := old(lruList)[k];
                && old(pageTable[victim].pinCount) == 0
                && pageTable == old(pageTable) - {victim}
                && lruList == RemoveAt(old(lruList), k)
                && disk == (if old(pageTable[victim].dirty) then old(disk)[victim := old(pageTable)[victim].data[..]]
                            else old(disk))
      ensures forall id :: id in pageTable ==> unchanged(pageTable[id])
      ensures pageTable.Keys <= old(pageTable.Keys)
      ensures pageTable.Values <= old(pageTable.Values)
      ensures evicted ==> |pageTable| == |old(pageTable)| - 1
      ensures !evicted ==> forall id :: id in pageTable ==> pageTable[id].pinCount != 0
    {
      var i := 0;
      while i < |lruList|
        invariant 0 <= i <= |lruList|
        invariant FirstUnpinnedFrom(i) == FirstUnpinned()
      {
        if pageTable[lruList[i]].pinCount == 0 {
          RemoveVictim(i);
          return true;
        }
        i := i + 1;
      }
      return false;
    }

    /** The eviction of the page at position `k`: written first when dirty,
        then dropped from the table and the list. */
    method RemoveVictim(k: nat)
      requires Valid() && k < |lruList|
      modifies this`pageTable, this`lruList, this`disk, pageTable.Values
      ensures Valid()
      ensures var victim := old(lruList)[k];
              && pageTable == old(pageTable) - {victim}
              && lruList == RemoveAt(old(lruList), k)
              && disk == (if old(pageTable[victim].dirty) then old(disk)[victim := old(pageTable)[victim].data[..]]
                          else old(disk))
      ensures forall id :: id in pageTable ==> unchanged(pageTable[id])
      ensures |pageTable| == |old(pageTable)| - 1
    {
      var id := lruList[k];
      if pageTable[id].dirty {
        var _ := FlushPage(id);
      }
      TrackEvict(pageTable, lruList, k);
      pageTable := pageTable - {id};
      lruList := RemoveAt(lruList, k);
    }

    method GetPageAccessCount() returns (n: int)
      ensures n == pageAccessCount
    {
      n := pageAccessCount;
    }

    method ResetPageAccessCount()
      modifies this`pageAccessCount
      ensures pageAccessCount == 0
    {
      pageAccessCount := 0;
    }
  }
}

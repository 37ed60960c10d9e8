/** DiskManager.java: the data file as a byte sequence. Bytes [0, 16384) are
    the metadata header; page `i` occupies [16384 + i*pageSize, 16384 + (i+1)*pageSize). */
module Disk {
  import opened Types
  import opened Pages

  const METADATA_SIZE: int := 16384

  /** The file offset of page `pageId` (the page size is fixed at PAGE_SIZE). */
  function PageOffset(pageId: int): (off: int)
    requires pageId >= 0
    ensures off >= METADATA_SIZE
    ensures forall j :: 0 <= j && j != pageId ==>
              off + PAGE_SIZE <= METADATA_SIZE + j * PAGE_SIZE || METADATA_SIZE + (j + 1) * PAGE_SIZE <= off
  {
    METADATA_SIZE + pageId * PAGE_SIZE
  }

  /** What `readPage` returns for an open file: the page's bytes, zero-filled
      where the file is short, all zeros past its end or for a negative id. */
  function PageImage(file: seq<Byte>, pageId: int): (bytes: seq<Byte>)
    ensures |bytes| == PAGE_SIZE
  {
    if pageId < 0 then Zeros(PAGE_SIZE)
    else
      var off := PageOffset(pageId);
      if off >= |file| then Zeros(PAGE_SIZE)
      else
        var avail := file[off..Min(off + PAGE_SIZE, |file|)];
        avail + Zeros(PAGE_SIZE - |avail|)
  }

  /** What `writePage` leaves in the file: the file extended to cover the page,
      then the page's region overwritten. */
  function WritePageImage(file: seq<Byte>, pageId: int, bytes: seq<Byte>): (r: seq<Byte>)
    requires pageId >= 0 && |bytes| == PAGE_SIZE
    ensures |r| == Max(|file|, PageOffset(pageId) + PAGE_SIZE)
    ensures r[PageOffset(pageId)..PageOffset(pageId) + PAGE_SIZE] == bytes
    ensures forall i :: 0 <= i < |r| && !(PageOffset(pageId) <= i < PageOffset(pageId) + PAGE_SIZE) ==>
              r[i] == if i < |file| then file[i] else 0
  {
    var off := PageOffset(pageId);
    var ext := if off + PAGE_SIZE > |file| then file + Zeros(off + PAGE_SIZE - |file|) else file;
    ext[..off] + bytes + ext[off + PAGE_SIZE..]
  }

  /** What `readMetadata` returns for an open file. */
  function MetadataImage(file: seq<Byte>): (m: seq<Byte>)
    ensures |m| == METADATA_SIZE
  {
    if |file| < METADATA_SIZE then Zeros(METADATA_SIZE) else file[..METADATA_SIZE]
  }

  /** What `writeMetadata` leaves in the file: the block written at offset 0. */
  function WriteMetadataImage(file: seq<Byte>, metadata: seq<Byte>): (r: seq<Byte>)
    ensures |r| == Max(|file|, |metadata|)
    ensures r[..|metadata|] == metadata
    ensures r[|metadata|..] == if |file| > |metadata| then file[|metadata|..] else []
  {
    if |file| > |metadata| then metadata + file[|metadata|..] else metadata
  }

  /** Reading a page back after writing it gives the written bytes. */
  lemma ReadAfterWritePage(file: seq<Byte>, pageId: int, bytes: seq<Byte>)
    requires pageId >= 0 && |bytes| == PAGE_SIZE
    ensures PageImage(WritePageImage(file, pageId, bytes), pageId) == bytes
  {
  }

  /** Writing one page leaves every other page reading as before: the file
      model is a map from page id to bytes in which an absent page reads as zeros. */
  lemma WritePageFrame(file: seq<Byte>, pageId: int, bytes: seq<Byte>, other: int)
    requires pageId >= 0 && |bytes| == PAGE_SIZE && other != pageId
    ensures PageImage(WritePageImage(file, pageId, bytes), other) == PageImage(file, other)
  {
    if other >= 0 {
      var r := WritePageImage(file, pageId, bytes);
      var a, b := PageImage(r, other), PageImage(file, other);
      var off := PageOffset(other);
      forall i | 0 <= i < PAGE_SIZE
        ensures a[i] == b[i]
      {
        if off + i < |r| {
          assert a[i] == r[off + i];
        }
        if off + i < |file| {
          assert b[i] == file[off + i];
        }
      }
    }
  }

  /** Writing a page leaves the metadata header of an initialised file unchanged. */
  lemma WritePageKeepsHeader(file: seq<Byte>, pageId: int, bytes: seq<Byte>)
    requires pageId >= 0 && |bytes| == PAGE_SIZE && |file| >= METADATA_SIZE
    ensures MetadataImage(WritePageImage(file, pageId, bytes)) == MetadataImage(file)
  {
    var r := WritePageImage(file, pageId, bytes);
    assert forall i :: 0 <= i < METADATA_SIZE ==> r[i] == file[i];
  }

  /** Reading the header back after writing a full header gives the written bytes. */
  lemma ReadAfterWriteMetadata(file: seq<Byte>, metadata: seq<Byte>)
    requires |metadata| == METADATA_SIZE
    ensures MetadataImage(WriteMetadataImage(file, metadata)) == metadata
  {
  }

  /** Writing the header leaves every page reading as before. */
  lemma WriteMetadataKeepsPages(file: seq<Byte>, metadata: seq<Byte>, pageId: int)
    requires |metadata| == METADATA_SIZE && |file| >= METADATA_SIZE
    ensures PageImage(WriteMetadataImage(file, metadata), pageId) == PageImage(file, pageId)
  {
    var r := WriteMetadataImage(file, metadata);
    assert |r| == |file|;
    if pageId >= 0 {
      var off := PageOffset(pageId);
      if off < |file| {
        assert r[off..Min(off + PAGE_SIZE, |r|)] == file[off..Min(off + PAGE_SIZE, |file|)];
      }
    }
  }

  class DiskManager {
    /** Whether a file is open (`DiskManager`'s `file != null`). */
    var isOpen: bool
    /** The contents of the open file. */
    var file: seq<Byte>

    constructor ()
      ensures !isOpen && file == []
    {
      isOpen := false;
      file := [];
    }

    /** `openFile`: `existing` is what the file system holds under the name,
        `None` when no such file exists; a new file gets a zeroed header. */
    method OpenFile(existing: Option<seq<Byte>>)
      modifies this
      ensures isOpen
      ensures file == if existing.Some? then existing.value else Zeros(METADATA_SIZE)
    {
      isOpen := true;
      if existing.None? {
        file := Zeros(METADATA_SIZE);
      } else {
        file := existing.value;
      }
    }

    /** `readPage`: a fresh page holding the stored bytes; a fresh zero page
        when no file is open or the id is negative. */
    method ReadPage(pageId: int) returns (page: Page)
      ensures fresh(page) && fresh(page.data) && page.Valid()
      ensures page.pageId == pageId && !page.dirty && page.pinCount == 0
      ensures page.data[..] == if isOpen then PageImage(file, pageId) else Zeros(PAGE_SIZE)
    {
      if !isOpen || pageId < 0 {
        page := new Page(pageId);
        return;
      }
      var offset := PageOffset(pageId);
      var data := new Byte[PAGE_SIZE](_ => 0);
      if offset >= |file| {
        page := new Page.Wrap(pageId, data);
        assert data[..] == Zeros(PAGE_SIZE);
        return;
      }
      var bytesRead := Min(PAGE_SIZE, |file| - offset);
      var i := 0;
      while i < bytesRead
        invariant 0 <= i <= bytesRead
        invariant forall j :: 0 <= j < i ==> data[j] == file[offset + j]
        invariant forall j :: i <= j < PAGE_SIZE ==> data[j] == 0
      {
        data[i] := file[offset + i];
        i := i + 1;
      }
      page := new Page.Wrap(pageId, data);
      assert data[..] == PageImage(file, pageId);
    }

    /** `writePage`: a no-op without a file or for a negative id; otherwise
        extends the file as needed, writes the page's bytes and clears its dirty flag. */
    method WritePage(page: Page)
      requires page.Valid()
      modifies this, page`dirty
      ensures isOpen == old(isOpen)
      ensures if old(isOpen) && page.pageId >= 0 then
                file == WritePageImage(old(file), page.pageId, page.data[..]) && !page.dirty
              else file == old(file) && page.dirty == old(page.dirty)
    {
      if !isOpen || page.pageId < 0 {
        return;
      }
      file := WritePageImage(file, page.pageId, page.data[..]);
      page.dirty := false;
    }

    /** `writeMetadata`: writes the block at offset 0 of an open file. */
    method WriteMetadata(metadata: seq<Byte>)
      modifies this
      ensures isOpen == old(isOpen)
      ensures file == if isOpen then WriteMetadataImage(old(file), metadata) else old(file)
    {
      if !isOpen {
        return;
      }
      file := WriteMetadataImage(file, metadata);
    }

    /** `readMetadata`: the header, or zeros without a file or when the file is too short. */
    method ReadMetadata() returns (metadata: seq<Byte>)
      ensures metadata == if isOpen then MetadataImage(file) else Zeros(METADATA_SIZE)
    {
      if !isOpen || |file| < METADATA_SIZE {
        return Zeros(METADATA_SIZE);
      }
      metadata := file[..METADATA_SIZE];
    }
  }
}

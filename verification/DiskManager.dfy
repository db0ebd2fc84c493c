/**
 The page allocator.  The file is an abstract map from page numbers to pages
 whose reads and writes may fail; page 0 holds the header and the free pages
 are linked through their own bytes.
 */
module Disk {
  import opened Bytes
  import opened Core
  import opened Finite

  function NextFree(b: Page): PageId { U32(b, 8) }

  /** A file of pages.  Each operation may fail; a failed write changes nothing. */
  class PageFile {
    var present: bool
    var pages: map<nat, Page>
    ghost var faults: nat  // I/O failures so far

    constructor ()
      ensures !present && pages == map[] && faults == 0
    {
      present, pages, faults := false, map[], 0;
    }

    method Open() returns (ok: bool)
      modifies this`faults
      ensures faults == old(faults) + if ok then 0 else 1
    {
      ok := *;
      if !ok { faults := faults + 1; }
    }

    method Read(id: nat) returns (ok: bool, data: Page)
      modifies this`faults
      ensures ok ==> id in pages && data == pages[id]
      ensures faults == old(faults) + if ok || id !in pages then 0 else 1
    {
      ok, data := *, Zeros(PAGE_SIZE);
      if id !in pages {
        ok := false;
      } else if ok {
        data := pages[id];
      } else {
        faults := faults + 1;
      }
    }

    method Write(id: nat, data: Page) returns (ok: bool)
      modifies this`faults, this`pages
      ensures pages == if ok then old(pages)[id := data] else old(pages)
      ensures faults == old(faults) + if ok then 0 else 1
    {
      ok := *;
      if ok {
        pages := pages[id := data];
      } else {
        faults := faults + 1;
      }
    }
  }

  /** The allocator's fields next to the file, with the free list spelled out. */
  datatype DiskState = DiskState(
    pages: map<nat, Page>, pageCount: PageId, firstFree: PageId, freeCount: PageId, freeList: seq<PageId>)

  ghost predicate IsHeader(h: Page, magic: Bytes, pageCount: PageId, firstFree: PageId, freeCount: PageId) {
    && |magic| == 4
    && h[..4] == magic
    && U32(h, 4) == PAGE_SIZE
    && U32(h, 8) == pageCount
    && U32(h, 12) == firstFree
    && U32(h, 16) == freeCount
    && (forall k | 20 <= k < PAGE_SIZE :: h[k] == 0)
  }

  /** Page size, page count, first free page and free page count of a header page. */
  ghost function HeaderFields(h: Page): (nat, nat, nat, nat) {
    (U32(h, 4), U32(h, 8), U32(h, 12), U32(h, 16))
  }

  ghost predicate Linked(s: DiskState, i: nat)
    requires i < |s.freeList|
  {
    var p := s.freeList[i];
    && 1 <= p < s.pageCount
    && p in s.pages
    && NextFree(s.pages[p]) == if i + 1 < |s.freeList| then s.freeList[i + 1] else INVALID_PAGE_ID
  }

  ghost predicate DiskInv(magic: Bytes, s: DiskState) {
    && 1 <= s.pageCount
    && 0 in s.pages
    && IsHeader(s.pages[0], magic, s.pageCount, s.firstFree, s.freeCount)
    && (forall p: nat | p < s.pageCount :: p in s.pages)
    && |s.freeList| == s.freeCount
    && s.firstFree == (if s.freeList == [] then INVALID_PAGE_ID else s.freeList[0])
    && (forall i: nat | i < |s.freeList| :: Linked(s, i))
    && Distinct(s.freeList)
    && (forall p: nat | 1 <= p < s.pageCount :: Kind(s.pages[p]) == FREE_PAGE_KIND <==> p in s.freeList)
  }

  ghost function Allocated(s: DiskState): set<PageId> {
    set p: PageId | 1 <= p < s.pageCount && p !in s.freeList
  }

  /** The page store the allocator offers: its allocated pages and their bytes. */
  ghost function Contents(s: DiskState): map<PageId, Page>
    requires forall p: nat | p < s.pageCount :: p in s.pages
  {
    map p | p in Allocated(s) :: s.pages[p]
  }

  lemma ContentsFacts(magic: Bytes, s: DiskState)
    requires DiskInv(magic, s)
    ensures INVALID_PAGE_ID !in Contents(s) && 0 !in Contents(s)
    ensures forall p | p in Contents(s) :: Kind(Contents(s)[p]) != FREE_PAGE_KIND && p !in s.freeList
  {
  }

  /** Equal up to file pages past the page count, which nothing reads. */
  ghost predicate SameState(s: DiskState, t: DiskState) {
    && s.pageCount == t.pageCount && s.firstFree == t.firstFree
    && s.freeCount == t.freeCount && s.freeList == t.freeList
    && (forall p: nat | p < s.pageCount :: p in s.pages && p in t.pages && s.pages[p] == t.pages[p])
  }

  lemma SameStateKeeps(magic: Bytes, s: DiskState, t: DiskState)
    requires DiskInv(magic, s) && SameState(s, t)
    ensures DiskInv(magic, t) && Contents(t) == Contents(s)
  {
    forall i: nat | i < |t.freeList|
      ensures Linked(t, i)
    {
      assert Linked(s, i);
    }
    assert forall p | p in s.freeList :: exists i: nat :: i < |s.freeList| && s.freeList[i] == p;
  }

  /** Pages reached from `first` in at most n steps through the page bytes. */
  function Walk(pages: map<nat, Page>, first: PageId, n: nat): seq<PageId>
    decreases n
  {
    if n == 0 || first !in pages then [] else [first] + Walk(pages, NextFree(pages[first]), n - 1)
  }

  lemma {:induction false} WalkFrom(s: DiskState, i: nat)
    requires forall k: nat | k < |s.freeList| :: Linked(s, k)
    requires i < |s.freeList|
    ensures Walk(s.pages, s.freeList[i], |s.freeList| - i) == s.freeList[i..]
    decreases |s.freeList| - i
  {
    assert Linked(s, i);
    assert s.freeList[i..] == [s.freeList[i]] + s.freeList[i + 1..];
    if i + 1 < |s.freeList| {
      WalkFrom(s, i + 1);
    }
  }

  /** The free list is what the header and the page bytes say it is. */
  lemma FreeListFromBytes(magic: Bytes, s: DiskState)
    requires DiskInv(magic, s)
    ensures s.freeList == Walk(s.pages, U32(s.pages[0], 12), U32(s.pages[0], 16))
  {
    if s.freeList != [] {
      WalkFrom(s, 0);
      assert s.freeList[0..] == s.freeList;
    }
  }

  /** One header page, the allocated pages and the free pages make up the file. */
  lemma Conservation(magic: Bytes, s: DiskState)
    requires DiskInv(magic, s)
    ensures 1 + |Allocated(s)| + s.freeCount == s.pageCount <= INVALID_PAGE_ID
  {
    var free := Elements(s.freeList);
    var range := Range(1, s.pageCount);
    var alloc: set<int> := set p | p in Allocated(s);
    assert alloc == Allocated(s);
    forall p | p in free
      ensures p in range
    {
      var i: nat :| i < |s.freeList| && s.freeList[i] == p;
      assert Linked(s, i);
    }
    assert range == alloc + free && alloc !! free;
    assert |range| == |alloc| + |free|;
  }

  lemma AllocatedFacts(magic: Bytes, s: DiskState, p: PageId)
    requires DiskInv(magic, s) && p in Allocated(s)
    ensures |magic| == 4 && 1 <= p < s.pageCount && p in s.pages && s.freeCount < INVALID_PAGE_ID
    ensures SameState(s, s)
  {
    Conservation(magic, s);
    assert p in Allocated(s) && |Allocated(s)| > 0;
  }

  lemma FreeHead(magic: Bytes, s: DiskState)
    requires DiskInv(magic, s) && s.freeCount > 0
    ensures |magic| == 4 && 1 <= s.firstFree < s.pageCount && s.firstFree in s.pages && s.freeList != []
    ensures SameState(s, s)
  {
    assert Linked(s, 0);
  }

  lemma PopFree(magic: Bytes, s: DiskState, t: DiskState, h: Page)
    requires DiskInv(magic, s) && s.freeCount > 0 && s.firstFree in s.pages
    requires IsHeader(h, magic, s.pageCount, NextFree(s.pages[s.firstFree]), s.freeCount - 1)
    requires t == DiskState(s.pages[s.firstFree := Zeros(PAGE_SIZE)][0 := h], s.pageCount,
                            NextFree(s.pages[s.firstFree]), s.freeCount - 1, s.freeList[1..])
    ensures DiskInv(magic, t)
    ensures s.firstFree !in Contents(s) && 1 <= s.firstFree < INVALID_PAGE_ID
    ensures Contents(t) == Contents(s)[s.firstFree := Zeros(PAGE_SIZE)]
  {
    var p := s.firstFree;
    assert Linked(s, 0);
    forall i: nat | i < |t.freeList|
      ensures Linked(t, i)
    {
      assert Linked(s, i + 1);
      assert t.freeList[i] == s.freeList[i + 1] != p;
    }
    assert s.freeList == [p] + t.freeList;
    assert Kind(Zeros(PAGE_SIZE)) == 0;
  }

  lemma GrowFile(magic: Bytes, s: DiskState, t: DiskState, h: Page)
    requires DiskInv(magic, s) && s.pageCount < INVALID_PAGE_ID && s.freeCount == 0
    requires IsHeader(h, magic, s.pageCount + 1, s.firstFree, s.freeCount)
    requires t == s.(pages := s.pages[s.pageCount := Zeros(PAGE_SIZE)][0 := h], pageCount := s.pageCount + 1)
    ensures DiskInv(magic, t)
    ensures s.pageCount !in Contents(s)
    ensures Contents(t) == Contents(s)[s.pageCount := Zeros(PAGE_SIZE)]
  {
  }

  ghost predicate IsFreedPage(f: Page, p: PageId, next: PageId) {
    && U32(f, 0) == p
    && Kind(f) == FREE_PAGE_KIND
    && NextFree(f) == next
  }

  /** The bytes of a free page, as serializationMap.txt lists them. */
  ghost predicate FreePageBytes(f: Page, p: PageId, next: PageId) {
    U32(f, 0) == p && U16(f, 4) == 0xFFFF && U32(f, 8) == next && forall k | 6 <= k < 8 || 12 <= k < 4096 :: f[k] == 0
  }

  lemma PushFree(magic: Bytes, s: DiskState, t: DiskState, p: PageId, f: Page, h: Page)
    requires DiskInv(magic, s) && p in Allocated(s) && s.freeCount < INVALID_PAGE_ID
    requires IsFreedPage(f, p, s.firstFree)
    requires IsHeader(h, magic, s.pageCount, p, s.freeCount + 1)
    requires t == DiskState(s.pages[p := f][0 := h], s.pageCount, p, s.freeCount + 1, [p] + s.freeList)
    ensures DiskInv(magic, t)
    ensures Contents(t) == Contents(s) - {p}
  {
    forall i: nat | i < |t.freeList|
      ensures Linked(t, i)
    {
      if i > 0 {
        assert Linked(s, i - 1);
        assert t.freeList[i] == s.freeList[i - 1] != p;
      }
    }
    assert Distinct(t.freeList) by {
      assert p !in s.freeList;
    }
  }

  lemma StorePage(magic: Bytes, s: DiskState, t: DiskState, p: PageId, data: Page)
    requires DiskInv(magic, s) && p in Allocated(s) && Kind(data) != FREE_PAGE_KIND
    requires t == s.(pages := s.pages[p := data])
    ensures DiskInv(magic, t)
    ensures Contents(t) == Contents(s)[p := data]
  {
    forall i: nat | i < |t.freeList|
      ensures Linked(t, i)
    {
      assert Linked(s, i);
    }
  }

  /** Writing bytes of the free kind into an allocated page always breaks the invariant. */
  lemma StoreFreeKindBreaks(magic: Bytes, s: DiskState, p: PageId, data: Page, list: seq<PageId>)
    requires DiskInv(magic, s) && p in Allocated(s) && Kind(data) == FREE_PAGE_KIND
    ensures !DiskInv(magic, s.(pages := s.pages[p := data], freeList := list))
  {
    var t := s.(pages := s.pages[p := data], freeList := list);
    if DiskInv(magic, t) {
      // The walk through the bytes never leaves the old list, so p is not on it.
      forall q | q in s.freeList
        ensures q in s.pages && q in t.pages && t.pages[q] == s.pages[q]
      {
        var i: nat :| i < |s.freeList| && s.freeList[i] == q;
        assert Linked(s, i);
      }
      SameFreeList(magic, s, t);
      assert false;
    }
  }

  lemma SameFreeList(magic: Bytes, s: DiskState, t: DiskState)
    requires DiskInv(magic, s) && DiskInv(magic, t)
    requires s.firstFree == t.firstFree && s.freeCount == t.freeCount
    requires forall p | p in s.freeList :: p in s.pages && p in t.pages && t.pages[p] == s.pages[p]
    ensures s.freeList == t.freeList
  {
    if s.freeList != [] {
      SameWalk(s, t, 0);
    }
  }

  lemma {:induction false} SameWalk(s: DiskState, t: DiskState, i: nat)
    requires i < |s.freeList| == |t.freeList|
    requires forall k: nat | k < |s.freeList| :: Linked(s, k) && Linked(t, k)
    requires forall p | p in s.freeList :: p in s.pages && p in t.pages && t.pages[p] == s.pages[p]
    requires s.freeList[..i + 1] == t.freeList[..i + 1]
    ensures s.freeList == t.freeList
    decreases |s.freeList| - i
  {
    assert Linked(s, i) && Linked(t, i);
    assert s.freeList[..i + 1][i] == t.freeList[..i + 1][i];
    if i + 1 < |s.freeList| {
      assert s.freeList[..i + 2] == s.freeList[..i + 1] + [s.freeList[i + 1]];
      assert t.freeList[..i + 2] == t.freeList[..i + 1] + [t.freeList[i + 1]];
      SameWalk(s, t, i + 1);
    } else {
      assert s.freeList[..i + 1] == s.freeList && t.freeList[..i + 1] == t.freeList;
    }
  }

  /** A failed rollback in allocatePage: the list head is no longer a free page. */
  lemma FailedAllocateRollbackBreaks(magic: Bytes, s: DiskState, list: seq<PageId>)
    requires DiskInv(magic, s) && s.freeCount > 0
    ensures !DiskInv(magic, s.(pages := s.pages[s.firstFree := Zeros(PAGE_SIZE)], freeList := list))
  {
    var t := s.(pages := s.pages[s.firstFree := Zeros(PAGE_SIZE)], freeList := list);
    assert Linked(s, 0);
    assert t.firstFree in t.freeList ==> Kind(t.pages[t.firstFree]) != FREE_PAGE_KIND;
  }

  /** A file with nothing but a header has no pages to give out or take back. */
  lemma EmptyDisk(magic: Bytes, s: DiskState)
    requires 0 in s.pages && IsHeader(s.pages[0], magic, 1, INVALID_PAGE_ID, 0)
    requires s.pageCount == 1 && s.firstFree == INVALID_PAGE_ID && s.freeCount == 0 && s.freeList == []
    ensures DiskInv(magic, s) && Contents(s) == map[]
  {
    assert Allocated(s) == {};
  }

  class DiskManager {
    const file: PageFile
    const magic: Bytes
    var pageCount: PageId
    var firstFree: PageId
    var freeCount: PageId
    ghost var freeList: seq<PageId>

    ghost function State(): DiskState
      reads this, file
    {
      DiskState(file.pages, pageCount, firstFree, freeCount, freeList)
    }

    ghost predicate Valid()
      reads this, file
    {
      file.present && DiskInv(magic, State())
    }

    ghost function Store(): map<PageId, Page>
      requires Valid()
      reads this, file
    {
      Contents(State())
    }

    ghost predicate CanAllocate()
      reads this
    {
      freeCount > 0 || pageCount < INVALID_PAGE_ID
    }

    /** The link stored in the bytes of page p. */
    ghost function LinkAt(p: PageId): nat
      reads file
    {
      if p in file.pages then U32(file.pages[p], 8) else 0
    }

    /** No page of the file was written but p and the header. */
    twostate predicate WroteOnly(p: PageId)
      reads file
    {
      p in file.pages && 0 in file.pages && file.pages == old(file.pages)[p := file.pages[p]][0 := file.pages[0]]
    }

    constructor (file: PageFile, magic: Bytes, pageCount: PageId, firstFree: PageId, freeCount: PageId,
                 ghost freeList: seq<PageId>)
      ensures this.file == file && this.magic == magic
      ensures this.pageCount == pageCount && this.firstFree == firstFree
      ensures this.freeCount == freeCount && this.freeList == freeList
    {
      this.file, this.magic := file, magic;
      this.pageCount, this.firstFree, this.freeCount := pageCount, firstFree, freeCount;
      this.freeList := freeList;
    }

    /**
     Creating or opening the file; a Failure is an exception of the original
     constructor.  Of an existing file only the magic bytes are checked, so the
     allocator is valid exactly when the file is: `list` names its free list.
     */
    static method Open(file: PageFile, magic: Bytes, ghost list: seq<PageId>) returns (r: Result<DiskManager>)
      requires |magic| == 4
      modifies file
      ensures old(file.faults) <= file.faults <= old(file.faults) + 1
      ensures r.Success? <==>
                file.faults == old(file.faults) && (old(file.present) ==> 0 in old(file.pages) && old(file.pages)[0][..4] == magic)
      ensures r.Failure? ==>
                r.status == if file.faults > old(file.faults) || 0 !in old(file.pages) then IOError else Corruption
      ensures r.Success? ==> fresh(r.value) && r.value.file == file && r.value.magic == magic
      ensures r.Success? && old(file.present) ==>
                && file.present && file.pages == old(file.pages)
                && r.value.State() == DiskState(file.pages, U32(file.pages[0], 8), U32(file.pages[0], 12), U32(file.pages[0], 16), list)
                && (r.value.Valid() <==> DiskInv(magic, r.value.State()))
      ensures r.Success? && !old(file.present) ==>
                && r.value.Valid() && r.value.Store() == map[] && r.value.pageCount == 1
                && file.pages.Keys == {0} && HeaderFields(file.pages[0]) == (4096, 1, 0xFFFF_FFFF, 0)
    {
      hide DiskInv, Contents;
      var d := new DiskManager(file, magic, 1, INVALID_PAGE_ID, 0, if file.present then list else []);
      var existing := file.present;
      var isOpen := file.Open();
      if !isOpen {
        return Failure(IOError);
      }
      var st;
      if existing {
        st := d.ReadHeader();
      } else {
        file.present, file.pages := true, map[];
        st := d.WriteHeader();
      }
      if !st.Ok? {
        return Failure(st);
      }
      if !existing {
        EmptyDisk(magic, d.State());
      }
      return Success(d);
    }

    method ReadHeader() returns (st: Status)
      requires |magic| == 4
      modifies this`pageCount, this`firstFree, this`freeCount, file`faults
      ensures st.Ok? <==> file.faults == old(file.faults) && 0 in file.pages && file.pages[0][..4] == magic
      ensures old(file.faults) <= file.faults <= old(file.faults) + 1
      ensures st in {Ok, IOError, Corruption}
      ensures st == Corruption <==> file.faults == old(file.faults) && 0 in file.pages && file.pages[0][..4] != magic
      ensures st.Ok? ==>
                && pageCount == U32(file.pages[0], 8)
                && firstFree == U32(file.pages[0], 12)
                && freeCount == U32(file.pages[0], 16)
    {
      var ok, header := file.Read(0);
      if !ok {
        return IOError;
      }
      for i := 0 to 4
        invariant forall k | 0 <= k < i :: header[k] == magic[k]
      {
        if header[i] != magic[i] {
          assert header[..4][i] != magic[i];
          return Corruption;
        }
      }
      assert header[..4] == magic;
      pageCount := U32(header, 8);
      firstFree := U32(header, 12);
      freeCount := U32(header, 16);
      return Ok;
    }

    method HeaderPage() returns (h: Page)
      requires |magic| == 4
      ensures IsHeader(h, magic, pageCount, firstFree, freeCount)
    {
      var header := new byte[PAGE_SIZE](_ => 0);
      CopyInto(header, 0, magic);
      assert header[..4] == magic;
      WriteUint32(header, 4, PAGE_SIZE);
      WriteUint32(header, 8, pageCount);
      WriteUint32(header, 12, firstFree);
      WriteUint32(header, 16, freeCount);
      h := header[..];
      assert h[..4] == magic;
    }

    method WriteHeader() returns (st: Status)
      requires |magic| == 4
      modifies file`pages, file`faults
      ensures st == if file.faults == old(file.faults) then Ok else IOError
      ensures old(file.faults) <= file.faults <= old(file.faults) + 1
      ensures st.Ok? ==>
                && 0 in file.pages && file.pages == old(file.pages)[0 := file.pages[0]]
                && IsHeader(file.pages[0], magic, pageCount, firstFree, freeCount)
                && HeaderFields(file.pages[0]) == (4096, pageCount, firstFree, freeCount)
      ensures !st.Ok? ==> file.pages == old(file.pages)
    {
      var header := HeaderPage();
      var ok := file.Write(0, header);
      return if ok then Ok else IOError;
    }

    /**
     Give out a zeroed page no one holds.  A failure with at most one I/O fault
     (so no rollback write failed) leaves header, free list and pages as they were.
     */
    method AllocatePage() returns (r: Result<PageId>)
      requires Valid()
      modifies this, file`pages, file`faults
      ensures old(file.faults) <= file.faults <= old(file.faults) + 2
      ensures r.Success? ==> file.faults == old(file.faults)
      ensures file.faults == old(file.faults) ==> (r.Success? <==> old(freeCount) > 0 || old(pageCount) < 0xFFFF_FFFF)
      ensures r.Success? ==> WroteOnly(r.value) && forall k | 0 <= k < 4096 :: file.pages[r.value][k] == 0
      ensures r.Success? && old(freeCount) > 0 ==> freeCount == old(freeCount) - 1 && firstFree == old(LinkAt(firstFree))
      ensures r.Success? && old(freeCount) == 0 ==> freeCount == 0 && firstFree == old(firstFree)
      ensures r.Success? && old(freeCount) > 0 ==>
                old(freeList) != [] && r.value == old(firstFree) && freeList == old(freeList)[1..] && pageCount == old(pageCount)
      ensures r.Success? && old(freeCount) == 0 ==>
                r.value == old(pageCount) && pageCount == old(pageCount) + 1 && freeList == old(freeList)
      ensures r.Success? ==>
                && Valid()
                && 1 <= r.value < INVALID_PAGE_ID && r.value !in old(Store())
                && Store() == old(Store())[r.value := Zeros(PAGE_SIZE)]
      ensures r.Failure? && file.faults <= old(file.faults) + 1 ==>
                Valid() && SameState(old(State()), State()) && Store() == old(Store())
      ensures r.Failure? && file.faults > old(file.faults) + 1 ==>
                pageCount == old(pageCount) && firstFree == old(firstFree) && freeCount == old(freeCount) &&
                forall list :: !DiskInv(magic, State().(freeList := list))
      ensures r.Failure? ==> r.status == if file.faults == old(file.faults) then Internal else IOError
    {
      ghost var s := State();
      var isOpen := file.Open();
      if !isOpen {
        SameStateKeeps(magic, s, State());
        return Failure(IOError);
      }
      if freeCount > 0 {
        r := AllocateFromFreeList();
      } else if pageCount == INVALID_PAGE_ID {
        return Failure(Internal);
      } else {
        r := AllocateAtEnd();
      }
    }

    method AllocateFromFreeList() returns (r: Result<PageId>)
      requires Valid() && freeCount > 0
      modifies this, file`pages, file`faults
      ensures old(file.faults) <= file.faults <= old(file.faults) + 2
      ensures r.Success? <==> file.faults == old(file.faults)
      ensures old(freeList) != []
      ensures r.Success? ==> r.value == old(firstFree) && freeList == old(freeList)[1..] && pageCount == old(pageCount)
      ensures r.Success? ==> WroteOnly(r.value) && file.pages[r.value] == Zeros(PAGE_SIZE)
      ensures r.Success? ==> freeCount == old(freeCount) - 1 && firstFree == old(LinkAt(firstFree))
      ensures r.Success? ==>
                && Valid()
                && 1 <= r.value < INVALID_PAGE_ID && r.value !in old(Store())
                && Store() == old(Store())[r.value := Zeros(PAGE_SIZE)]
      ensures r.Failure? ==> r.status == IOError
      ensures r.Failure? && file.faults <= old(file.faults) + 1 ==>
                Valid() && SameState(old(State()), State()) && Store() == old(Store())
      ensures r.Failure? && file.faults > old(file.faults) + 1 ==>
                pageCount == old(pageCount) && firstFree == old(firstFree) && freeCount == old(freeCount) &&
                forall list :: !DiskInv(magic, State().(freeList := list))
    {
      hide DiskInv, Contents, IsHeader, HeaderFields, U32, Zeros;
      ghost var s := State();
      FreeHead(magic, s);
      var newId := firstFree;
      freeCount := freeCount - 1;
      var ok, current := file.Read(newId);
      if !ok {
        freeCount := freeCount + 1;
        SameStateKeeps(magic, s, State());
        return Failure(IOError);
      }
      firstFree := U32(current, 8);
      ok := file.Write(newId, Zeros(PAGE_SIZE));
      if !ok {
        freeCount := freeCount + 1;
        firstFree := newId;
        SameStateKeeps(magic, s, State());
        return Failure(IOError);
      }
      var st := WriteHeader();
      if !st.Ok? {
        freeCount := freeCount + 1;
        firstFree := newId;
        ok := file.Write(newId, current);
        if !ok {
          forall list
            ensures !DiskInv(magic, State().(freeList := list))
          {
            FailedAllocateRollbackBreaks(magic, s, list);
          }
          return Failure(IOError);
        }
        SameStateKeeps(magic, s, State());
        return Failure(IOError);
      }
      freeList := freeList[1..];
      PopFree(magic, s, State(), file.pages[0]);
      return Success(newId);
    }

    method AllocateAtEnd() returns (r: Result<PageId>)
      requires Valid() && freeCount == 0 && pageCount < INVALID_PAGE_ID
      modifies this, file`pages, file`faults
      ensures old(file.faults) <= file.faults <= old(file.faults) + 1
      ensures r.Success? <==> file.faults == old(file.faults)
      ensures r.Success? ==> r.value == old(pageCount) && pageCount == old(pageCount) + 1 && freeList == old(freeList)
      ensures r.Success? ==> WroteOnly(r.value) && file.pages[r.value] == Zeros(PAGE_SIZE)
      ensures r.Success? ==> freeCount == 0 && firstFree == old(firstFree)
      ensures r.Success? ==>
                && Valid()
                && 1 <= r.value < INVALID_PAGE_ID && r.value !in old(Store())
                && Store() == old(Store())[r.value := Zeros(PAGE_SIZE)]
      ensures r.Failure? ==> r.status == IOError && Valid() && SameState(old(State()), State()) && Store() == old(Store())
    {
      ghost var s := State();
      var newId := pageCount;
      pageCount := pageCount + 1;
      var ok := file.Write(newId, Zeros(PAGE_SIZE));
      if !ok {
        pageCount := pageCount - 1;
        SameStateKeeps(magic, s, State());
        return Failure(IOError);
      }
      var st := WriteHeader();
      if !st.Ok? {
        pageCount := pageCount - 1;
        SameStateKeeps(magic, s, State());
        return Failure(st);
      }
      GrowFile(magic, s, State(), file.pages[0]);
      return Success(newId);
    }

    /** Return a page to the free list, with the same failure atomicity. */
    method FreePage(pageId: PageId) returns (st: Status)
      requires Valid()
      modifies this, file`pages, file`faults
      ensures old(file.faults) <= file.faults <= old(file.faults) + 2
      ensures st.Ok? <==> pageId in old(Store()) && file.faults == old(file.faults)
      ensures st.Ok? ==>
                && Valid() && Store() == old(Store()) - {pageId}
                && freeList == [pageId] + old(freeList) && pageCount == old(pageCount)
                && firstFree == pageId && freeCount == old(freeCount) + 1
                && WroteOnly(pageId) && FreePageBytes(file.pages[pageId], pageId, old(firstFree))
      ensures !st.Ok? ==> st == if file.faults == old(file.faults) then InvalidArgument else IOError
      ensures !st.Ok? && file.faults <= old(file.faults) + 1 ==>
                Valid() && SameState(old(State()), State()) && Store() == old(Store())
      ensures !st.Ok? && file.faults > old(file.faults) + 1 ==>
                pageCount == old(pageCount) && firstFree == old(firstFree) && freeCount == old(freeCount) &&
                forall list :: !DiskInv(magic, State().(freeList := list))
    {
      ghost var s := State();
      SameStateKeeps(magic, s, s);
      if pageId == 0 {
        return InvalidArgument;
      }
      if pageId >= pageCount {
        return InvalidArgument;
      }
      var ok := file.Open();
      if !ok {
        return IOError;
      }
      var current;
      ok, current := file.Read(pageId);
      if !ok {
        return IOError;
      }
      if U16(current, 4) == FREE_PAGE_KIND {
        return InvalidArgument;
      }
      st := LinkFreed(pageId, current);
    }

    /** Second half of freePage: write the freed page, then the header, or undo. */
    method LinkFreed(pageId: PageId, current: Page) returns (st: Status)
      requires Valid() && pageId in Allocated(State()) && current == file.pages[pageId]
      modifies this, file`pages, file`faults
      ensures old(file.faults) <= file.faults <= old(file.faults) + 2
      ensures st == if file.faults == old(file.faults) then Ok else IOError
      ensures st.Ok? ==>
                && Valid() && Store() == old(Store()) - {pageId}
                && freeList == [pageId] + old(freeList) && pageCount == old(pageCount)
                && firstFree == pageId && freeCount == old(freeCount) + 1
                && WroteOnly(pageId) && FreePageBytes(file.pages[pageId], pageId, old(firstFree))
      ensures !st.Ok? && file.faults <= old(file.faults) + 1 ==>
                Valid() && SameState(old(State()), State()) && Store() == old(Store())
      ensures !st.Ok? && file.faults > old(file.faults) + 1 ==>
                pageCount == old(pageCount) && firstFree == old(firstFree) && freeCount == old(freeCount) &&
                forall list :: !DiskInv(magic, State().(freeList := list))
    {
      hide DiskInv, Contents, IsHeader, HeaderFields, U32, IsFreedPage, FreePageBytes;
      ghost var s := State();
      Conservation(magic, s);
      AllocatedFacts(magic, s, pageId);
      var freed := FreedPage(pageId, firstFree);
      var previousFirstFree, previousFreeCount := firstFree, freeCount;
      var ok := file.Write(pageId, freed);
      if !ok {
        SameStateKeeps(magic, s, State());
        return IOError;
      }
      firstFree := pageId;
      freeCount := freeCount + 1;
      st := WriteHeader();
      if !st.Ok? {
        firstFree, freeCount := previousFirstFree, previousFreeCount;
        ok := file.Write(pageId, current);
        if !ok {
          forall list
            ensures !DiskInv(magic, State().(freeList := list))
          {
            StoreFreeKindBreaks(magic, s, pageId, freed, list);
          }
          return IOError;
        }
        SameStateKeeps(magic, s, State());
        return IOError;
      }
      freeList := [pageId] + freeList;
      PushFree(magic, s, State(), pageId, freed, file.pages[0]);
    }

    method FreedPage(pageId: PageId, next: PageId) returns (f: Page)
      ensures IsFreedPage(f, pageId, next) && FreePageBytes(f, pageId, next)
    {
      var freed := new byte[PAGE_SIZE](_ => 0);
      WriteUint32(freed, 0, pageId);
      WriteUint16(freed, 4, FREE_PAGE_KIND);
      WriteUint32(freed, 8, next);
      return freed[..];
    }

    /** Free pages are not rejected here, exactly as in the original. */
    method ReadPage(pageId: PageId) returns (r: Result<Page>)
      requires Valid()
      modifies file`faults
      ensures Valid() && old(file.faults) <= file.faults <= old(file.faults) + 1
      ensures r.Success? <==> 1 <= pageId < pageCount && file.faults == old(file.faults)
      ensures r.Success? ==> pageId in file.pages && r.value == file.pages[pageId]
      ensures r.Failure? ==> r.status == if 1 <= pageId < pageCount then IOError else InvalidArgument
      ensures !(1 <= pageId < pageCount) ==> file.faults == old(file.faults)
      ensures pageId in Store() ==> 1 <= pageId < pageCount && file.pages[pageId] == Store()[pageId]
      ensures pageId !in Store() && pageId !in freeList ==> !(1 <= pageId < pageCount)
      ensures pageId in freeList ==> 1 <= pageId < pageCount
    {
      if i: nat :| i < |freeList| && freeList[i] == pageId {
        assert Linked(State(), i);
      }
      if pageId == 0 {
        return Failure(InvalidArgument);
      }
      if pageId >= pageCount {
        return Failure(InvalidArgument);
      }
      var ok := file.Open();
      if !ok {
        return Failure(IOError);
      }
      var data;
      ok, data := file.Read(pageId);
      return if ok then Success(data) else Failure(IOError);
    }

    /** Store the bytes of an allocated page; bytes of the free kind would break the allocator. */
    method WritePage(pageId: PageId, data: Page) returns (st: Status)
      requires Valid()
      modifies file`pages, file`faults
      ensures old(file.faults) <= file.faults <= old(file.faults) + 1
      ensures st == if file.faults > old(file.faults) then IOError
                    else if pageId in old(Store()) then Ok else InvalidArgument
      ensures !st.Ok? ==> Valid() && file.pages == old(file.pages)
      ensures st.Ok? ==> file.pages == old(file.pages)[pageId := data]
      ensures st.Ok? ==> (Valid() <==> U16(data, 4) != 0xFFFF)
      ensures Valid() ==>
                Store() == if st.Ok? then old(Store())[pageId := data] else old(Store())
    {
      ghost var s := State();
      if pageId == 0 {
        return InvalidArgument;
      }
      if pageId >= pageCount {
        return InvalidArgument;
      }
      var ok := file.Open();
      if !ok {
        return IOError;
      }
      var current;
      ok, current := file.Read(pageId);
      if !ok {
        return IOError;
      }
      if U16(current, 4) == FREE_PAGE_KIND {
        return InvalidArgument;
      }
      ok := file.Write(pageId, data);
      if !ok {
        return IOError;
      }
      if Kind(data) != FREE_PAGE_KIND {
        StorePage(magic, s, State(), pageId, data);
      } else {
        StoreFreeKindBreaks(magic, s, pageId, data, freeList);
      }
      return Ok;
    }
  }
}

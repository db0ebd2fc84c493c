/**
 Slotted table pages.  The bytes of a page are read as a sequence of optional
 payloads: slot entries grow up from byte 24, payloads grow down from the end,
 and a slot whose size is zero is a tombstone.
 */
module SlottedPages {
  import opened Bytes
  import opened Core

  const TABLE_PAGE_KIND: nat := 1
  const HEADER_SIZE: nat := 24
  const SLOT_ENTRY_SIZE: nat := 4
  const MAX_SLOTS: nat := 1018

  function IdOf(s: Page): PageId { U32(s, 0) }
  function NextOf(s: Page): PageId { U32(s, 8) }
  function CountOf(s: Page): nat { U16(s, 12) }
  function FreeStartOf(s: Page): nat { U16(s, 14) }
  function FreeEndOf(s: Page): nat { U16(s, 16) }

  function RowOffsetOf(s: Page, i: nat): nat
    requires i < MAX_SLOTS
  {
    U16(s, HEADER_SIZE + SLOT_ENTRY_SIZE * i)
  }

  function RowSizeOf(s: Page, i: nat): nat
    requires i < MAX_SLOTS
  {
    U16(s, HEADER_SIZE + SLOT_ENTRY_SIZE * i + 2)
  }

  ghost predicate SlotInBounds(s: Page, i: nat)
    requires i < MAX_SLOTS
  {
    RowSizeOf(s, i) != 0 ==>
      FreeEndOf(s) <= RowOffsetOf(s, i) && RowOffsetOf(s, i) + RowSizeOf(s, i) <= PAGE_SIZE
  }

  /** A later live payload lies wholly below every earlier one. */
  ghost predicate SlotBelow(s: Page, i: nat, j: nat)
    requires i < MAX_SLOTS && j < MAX_SLOTS
  {
    RowSizeOf(s, i) != 0 && RowSizeOf(s, j) != 0 ==>
      RowOffsetOf(s, j) + RowSizeOf(s, j) <= RowOffsetOf(s, i)
  }

  ghost predicate WellFormed(s: Page) {
    && Kind(s) == TABLE_PAGE_KIND
    && FreeStartOf(s) == HEADER_SIZE + SLOT_ENTRY_SIZE * CountOf(s)
    && FreeStartOf(s) <= FreeEndOf(s) <= PAGE_SIZE
    && (forall i: nat | i < CountOf(s) :: SlotInBounds(s, i))
    && (forall i: nat, j: nat | i < j < CountOf(s) :: SlotBelow(s, i, j))
  }

  ghost function SlotAt(s: Page, i: nat): Option<Bytes>
    requires WellFormed(s) && i < CountOf(s)
  {
    if RowSizeOf(s, i) == 0 then None
    else
      assert SlotInBounds(s, i);
      Some(s[RowOffsetOf(s, i)..RowOffsetOf(s, i) + RowSizeOf(s, i)])
  }

  /** What the page means: one optional payload per slot id. */
  ghost function Slots(s: Page): (r: seq<Option<Bytes>>)
    requires WellFormed(s)
    ensures |r| == CountOf(s) <= MAX_SLOTS < INVALID_SLOT_ID
  {
    seq(CountOf(s), i requires 0 <= i < CountOf(s) => SlotAt(s, i))
  }

  /** The free kind never appears on a well-formed table page. */
  lemma TablePagesAreNotFree(s: Page)
    requires WellFormed(s)
    ensures Kind(s) != FREE_PAGE_KIND
  {
  }

  /** Distinct live slots occupy disjoint byte ranges inside [freeEnd, 4096). */
  lemma LivePayloadsDisjoint(s: Page, i: nat, j: nat)
    requires WellFormed(s) && i < CountOf(s) && j < CountOf(s) && i != j
    requires Slots(s)[i].Some? && Slots(s)[j].Some?
    ensures RowOffsetOf(s, i) + RowSizeOf(s, i) <= RowOffsetOf(s, j)
            || RowOffsetOf(s, j) + RowSizeOf(s, j) <= RowOffsetOf(s, i)
    ensures CountOf(s) * SLOT_ENTRY_SIZE + HEADER_SIZE <= FreeEndOf(s) <= RowOffsetOf(s, i)
    ensures RowOffsetOf(s, i) + RowSizeOf(s, i) <= PAGE_SIZE
  {
    assert SlotInBounds(s, i);
    if i < j {
      assert SlotBelow(s, i, j);
    } else {
      assert SlotBelow(s, j, i);
    }
  }

  lemma SameSlot(s: Page, t: Page, i: nat)
    requires WellFormed(s) && WellFormed(t) && i < CountOf(s) && i < CountOf(t)
    requires RowSizeOf(s, i) == RowSizeOf(t, i) && RowOffsetOf(s, i) == RowOffsetOf(t, i)
    requires forall k | RowOffsetOf(s, i) <= k < RowOffsetOf(s, i) + RowSizeOf(s, i) && k < PAGE_SIZE :: s[k] == t[k]
    ensures SlotAt(s, i) == SlotAt(t, i)
  {
    assert SlotInBounds(s, i);
    if RowSizeOf(s, i) != 0 {
      var a, b := RowOffsetOf(s, i), RowOffsetOf(s, i) + RowSizeOf(s, i);
      assert s[a..b] == t[a..b];
    }
  }

  /** Two pages with the same header, directory and payload area mean the same. */
  lemma SameSlots(s: Page, t: Page)
    requires WellFormed(s)
    requires forall k | 4 <= k < 6 || 12 <= k < PAGE_SIZE :: s[k] == t[k]
    ensures WellFormed(t) && Slots(t) == Slots(s)
  {
    forall i: nat | i < CountOf(s)
      ensures SlotInBounds(t, i)
      ensures RowSizeOf(s, i) == RowSizeOf(t, i) && RowOffsetOf(s, i) == RowOffsetOf(t, i)
    {
      assert SlotInBounds(s, i);
    }
    forall i: nat, j: nat | i < j < CountOf(s)
      ensures SlotBelow(t, i, j)
    {
      assert SlotBelow(s, i, j);
    }
    forall i: nat | i < CountOf(s)
      ensures SlotAt(t, i) == SlotAt(s, i)
    {
      SameSlot(s, t, i);
    }
  }

  /** A page just initialized, and one that then took a single payload. */
  ghost predicate EmptyTablePage(b: Page, q: PageId) {
    WellFormed(b) && IdOf(b) == q && NextOf(b) == INVALID_PAGE_ID && Slots(b) == [] && FreeEndOf(b) == PAGE_SIZE
  }

  ghost predicate NewTablePage(b: Page, q: PageId, payload: Bytes) {
    && WellFormed(b) && IdOf(b) == q && NextOf(b) == INVALID_PAGE_ID && Slots(b) == [Some(payload)]
    && FreeEndOf(b) == PAGE_SIZE - |payload|
  }

  ghost predicate HasSpace(s: Page, payloadSize: nat) {
    FreeStartOf(s) + payloadSize + SLOT_ENTRY_SIZE <= FreeEndOf(s)
  }

  predicate FitsEmptyPage(payloadSize: nat) {
    payloadSize + SLOT_ENTRY_SIZE <= PAGE_SIZE - HEADER_SIZE
  }

  /** What has room on some page has room on an empty one. */
  lemma RoomOnEmptyPage(s: Page, payloadSize: nat)
    requires WellFormed(s) && HasSpace(s, payloadSize)
    ensures FitsEmptyPage(payloadSize)
  {
  }

  /** Room in bytes: header, directory with one more entry, payload and the payloads there are fit the page. */
  lemma RoomInBytes(s: Page, payloadSize: nat)
    requires WellFormed(s)
    ensures HasSpace(s, payloadSize) <==> 24 + 4 * (|Slots(s)| + 1) + payloadSize <= FreeEndOf(s)
    ensures FitsEmptyPage(payloadSize) <==> payloadSize <= 4068
  {
  }

  /** The bytes of an empty table page, as serializationMap.txt lists them. */
  ghost predicate EmptyPageBytes(b: Page, q: PageId) {
    && U32(b, 0) == q && b[4] == 1 && b[5] == 0 && U32(b, 8) == 0xFFFF_FFFF
    && U16(b, 12) == 0 && U16(b, 14) == 24 && U16(b, 16) == 4096
    && (forall k | 6 <= k < 8 || 18 <= k < 4096 :: b[k] == 0)
  }

  /** What insertRow writes: three counters, one directory entry, the payload, and no other byte. */
  ghost predicate InsertedBytes(s: Page, t: Page, payload: Bytes)
    requires WellFormed(s) && HasSpace(s, |payload|)
  {
    var n := CountOf(s);
    var row := FreeEndOf(s) - |payload|;
    && U16(t, 12) == n + 1 && U16(t, 14) == 24 + 4 * (n + 1) && U16(t, 16) == row
    && U16(t, 24 + 4 * n) == row && U16(t, 26 + 4 * n) == |payload|
    && t[row..row + |payload|] == payload
    && (forall k | 0 <= k < 4096 && !(12 <= k < 18) && !(24 + 4 * n <= k < 28 + 4 * n) && !(row <= k < row + |payload|) :: t[k] == s[k])
  }

  lemma InsertKeepsSlot(s: Page, t: Page, payload: Bytes, i: nat)
    requires WellFormed(s) && HasSpace(s, |payload|) && InsertedBytes(s, t, payload)
    requires i < CountOf(s)
    ensures SlotInBounds(t, i) && SlotBelow(t, i, CountOf(s))
    ensures RowSizeOf(s, i) == RowSizeOf(t, i) && RowOffsetOf(s, i) == RowOffsetOf(t, i)
  {
    assert SlotInBounds(s, i);
  }

  lemma InsertKeepsWellFormed(s: Page, t: Page, payload: Bytes)
    requires WellFormed(s) && HasSpace(s, |payload|) && InsertedBytes(s, t, payload)
    ensures WellFormed(t)
  {
    var n := CountOf(s);
    forall i: nat | i < n
      ensures SlotInBounds(t, i) && SlotBelow(t, i, n)
    {
      InsertKeepsSlot(s, t, payload, i);
    }
    assert SlotInBounds(t, n);
    forall i: nat, j: nat | i < j < n
      ensures SlotBelow(t, i, j)
    {
      assert SlotBelow(s, i, j);
      InsertKeepsSlot(s, t, payload, i);
      InsertKeepsSlot(s, t, payload, j);
    }
  }

  lemma InsertAppends(s: Page, t: Page, payload: Bytes)
    requires WellFormed(s) && HasSpace(s, |payload|) && InsertedBytes(s, t, payload)
    ensures WellFormed(t)
    ensures Slots(t) == Slots(s) + [if payload == [] then None else Some(payload)]
  {
    InsertKeepsWellFormed(s, t, payload);
    forall i: nat | i < CountOf(s)
      ensures SlotAt(t, i) == SlotAt(s, i)
    {
      InsertKeepsSlot(s, t, payload, i);
      assert SlotInBounds(s, i);
      SameSlot(s, t, i);
    }
  }

  lemma UpdateReplaces(s: Page, t: Page, i: nat, payload: Bytes)
    requires WellFormed(s) && i < CountOf(s) && RowSizeOf(s, i) == |payload| > 0
    requires SlotInBounds(s, i)
    requires var row := RowOffsetOf(s, i);
             t == s[..row] + payload + s[row + |payload|..]
    ensures WellFormed(t) && Slots(t) == Slots(s)[i := Some(payload)]
  {
    var row := RowOffsetOf(s, i);
    assert forall k | 0 <= k < FreeEndOf(s) :: t[k] == s[k];
    forall j: nat | j < CountOf(s)
      ensures SlotInBounds(t, j)
      ensures RowSizeOf(s, j) == RowSizeOf(t, j) && RowOffsetOf(s, j) == RowOffsetOf(t, j)
    {
      assert SlotInBounds(s, j);
    }
    forall j: nat, k: nat | j < k < CountOf(s)
      ensures SlotBelow(t, j, k)
    {
      assert SlotBelow(s, j, k);
    }
    forall j: nat | j < CountOf(s)
      ensures SlotAt(t, j) == if j == i then Some(payload) else SlotAt(s, j)
    {
      assert SlotInBounds(s, j);
      if j == i {
        assert t[row..row + |payload|] == payload;
      } else {
        if j < i {
          assert SlotBelow(s, j, i);
        } else {
          assert SlotBelow(s, i, j);
        }
        SameSlot(s, t, j);
      }
    }
  }

  lemma DeleteTombstones(s: Page, t: Page, i: nat)
    requires WellFormed(s) && i < CountOf(s)
    requires RowSizeOf(t, i) == 0
    requires var o := HEADER_SIZE + SLOT_ENTRY_SIZE * i + 2;
             forall k | 0 <= k < PAGE_SIZE && !(o <= k < o + 2) :: t[k] == s[k]
    ensures WellFormed(t) && Slots(t) == Slots(s)[i := None]
  {
    forall j: nat | j < CountOf(s)
      ensures SlotInBounds(t, j)
      ensures j != i ==> RowSizeOf(s, j) == RowSizeOf(t, j) && RowOffsetOf(s, j) == RowOffsetOf(t, j)
    {
      assert SlotInBounds(s, j);
    }
    forall j: nat, k: nat | j < k < CountOf(s)
      ensures SlotBelow(t, j, k)
    {
      assert SlotBelow(s, j, k);
    }
    forall j: nat | j < CountOf(s)
      ensures SlotAt(t, j) == if j == i then None else SlotAt(s, j)
    {
      if j != i {
        SameSlot(s, t, j);
      }
    }
  }

  /** A view over the bytes of one page, edited in place. */
  class SlottedPage {
    const page: array<byte>

    constructor (page: array<byte>)
      ensures this.page == page
    {
      this.page := page;
    }

    ghost predicate Valid()
      reads page
    {
      page.Length == PAGE_SIZE && WellFormed(page[..])
    }

    /** Fill a page with the bytes of an empty table page. */
    static method Initialize(page: array<byte>, pageId: PageId)
      requires page.Length == PAGE_SIZE
      modifies page
      ensures WellFormed(page[..]) && Slots(page[..]) == []
      ensures IdOf(page[..]) == pageId && NextOf(page[..]) == INVALID_PAGE_ID
      ensures FreeEndOf(page[..]) == PAGE_SIZE && EmptyPageBytes(page[..], pageId)
    {
      for k := 0 to PAGE_SIZE
        invariant forall j | 0 <= j < k :: page[j] == 0
      {
        page[k] := 0;
      }
      WriteUint32(page, 0, pageId);
      WriteUint16(page, 4, TABLE_PAGE_KIND);
      WriteUint32(page, 8, INVALID_PAGE_ID);
      WriteUint16(page, 12, 0);
      WriteUint16(page, 14, HEADER_SIZE);
      WriteUint16(page, 16, PAGE_SIZE);
    }

    method SetNextPageId(pageId: PageId)
      requires Valid()
      modifies page
      ensures Valid() && Slots(page[..]) == old(Slots(page[..]))
      ensures NextOf(page[..]) == pageId && IdOf(page[..]) == old(IdOf(page[..])) && FreeEndOf(page[..]) == old(FreeEndOf(page[..]))
      ensures U32(page[..], 8) == pageId && forall k | 0 <= k < 4096 && !(8 <= k < 12) :: page[k] == old(page[k])
    {
      WriteUint32(page, 8, pageId);
      SameSlots(old(page[..]), page[..]);
    }

    /** The directory entry and the three counters of the header. */
    method WriteDirectory(slotId: nat, row: nat, size: nat, count: nat, freeStart: nat, freeEnd: nat)
      requires page.Length == PAGE_SIZE && slotId < MAX_SLOTS
      requires row < 0x1_0000 && size < 0x1_0000 && count < 0x1_0000 && freeStart < 0x1_0000 && freeEnd < 0x1_0000
      modifies page
      ensures RowOffsetOf(page[..], slotId) == row && RowSizeOf(page[..], slotId) == size
      ensures CountOf(page[..]) == count && FreeStartOf(page[..]) == freeStart && FreeEndOf(page[..]) == freeEnd
      ensures var o := HEADER_SIZE + SLOT_ENTRY_SIZE * slotId;
              forall k | 0 <= k < PAGE_SIZE && !(12 <= k < 18) && !(o <= k < o + 4) :: page[k] == old(page[k])
    {
      var o := HEADER_SIZE + SLOT_ENTRY_SIZE * slotId;
      WriteUint16(page, o, row);
      WriteUint16(page, o + 2, size);
      WriteUint16(page, 12, count);
      WriteUint16(page, 14, freeStart);
      WriteUint16(page, 16, freeEnd);
    }

    method InsertRow(payload: Bytes) returns (r: Result<SlotId>)
      requires Valid()
      modifies page
      ensures Valid() && NextOf(page[..]) == old(NextOf(page[..])) && IdOf(page[..]) == old(IdOf(page[..]))
      ensures r.Success? <==> old(HasSpace(page[..], |payload|))
      ensures r.Success? <==> 24 + 4 * (old(|Slots(page[..])|) + 1) + |payload| <= old(FreeEndOf(page[..]))
      ensures r.Success? ==>
                && FreeEndOf(page[..]) == old(FreeEndOf(page[..])) - |payload|
                && InsertedBytes(old(page[..]), page[..], payload)
                && r.value == |old(Slots(page[..]))|
                && Slots(page[..]) == old(Slots(page[..])) + [if payload == [] then None else Some(payload)]
      ensures r.Failure? ==> r.status == InvalidArgument && page[..] == old(page[..])
    {
      ghost var s := page[..];
      var freeStart, freeEnd := U16(page[..], 14), U16(page[..], 16);
      if freeStart > freeEnd || |payload| + SLOT_ENTRY_SIZE > freeEnd - freeStart {
        return Failure(InvalidArgument);
      }
      var newSlotId := U16(page[..], 12);
      var newRowOffset := freeEnd - |payload|;
      CopyInto(page, newRowOffset, payload);
      ghost var copied := page[..];
      WriteDirectory(newSlotId, newRowOffset, |payload|, newSlotId + 1, freeStart + SLOT_ENTRY_SIZE, freeEnd - |payload|);
      assert page[newRowOffset..freeEnd] == payload by {
        assert copied[newRowOffset..freeEnd] == payload;
        assert page[newRowOffset..freeEnd] == copied[newRowOffset..freeEnd];
      }
      InsertAppends(s, page[..], payload);
      return Success(newSlotId);
    }

    method ReadRow(slotId: SlotId) returns (r: Result<Bytes>)
      requires Valid()
      ensures slotId >= |Slots(page[..])| ==> r == Failure(InvalidArgument)
      ensures slotId < |Slots(page[..])| ==>
                r == match Slots(page[..])[slotId] case None => Failure(NotFound) case Some(p) => Success(p)
    {
      if slotId >= U16(page[..], 12) {
        return Failure(InvalidArgument);
      }
      assert SlotInBounds(page[..], slotId);
      var offset := HEADER_SIZE + slotId * SLOT_ENTRY_SIZE;
      var rowOffset, rowSize := U16(page[..], offset), U16(page[..], offset + 2);
      if rowSize == 0 {
        return Failure(NotFound);
      }
      return Success(page[rowOffset..rowOffset + rowSize]);
    }

    method DeleteRow(slotId: SlotId) returns (st: Status)
      requires Valid()
      modifies page
      ensures Valid() && NextOf(page[..]) == old(NextOf(page[..])) && IdOf(page[..]) == old(IdOf(page[..]))
      ensures st == if slotId >= |old(Slots(page[..]))| then InvalidArgument
                    else if old(Slots(page[..]))[slotId].None? then NotFound else Ok
      ensures st.Ok? ==> Slots(page[..]) == old(Slots(page[..]))[slotId := None] && FreeEndOf(page[..]) == old(FreeEndOf(page[..]))
      ensures st.Ok? ==> page[26 + 4 * slotId] == page[27 + 4 * slotId] == 0
      ensures forall k | 0 <= k < 4096 && !(26 + 4 * slotId <= k < 28 + 4 * slotId) :: page[k] == old(page[k])
      ensures !st.Ok? ==> page[..] == old(page[..])
    {
      if slotId >= U16(page[..], 12) {
        return InvalidArgument;
      }
      var offset := HEADER_SIZE + slotId * SLOT_ENTRY_SIZE;
      if U16(page[..], offset + 2) == 0 {
        return NotFound;
      }
      WriteUint16(page, offset + 2, 0);
      DeleteTombstones(old(page[..]), page[..], slotId);
      return Ok;
    }

    /** Corruption is returned by a branch no well-formed page reaches. */
    method UpdateRow(slotId: SlotId, payload: Bytes) returns (st: Status)
      requires Valid()
      modifies page
      ensures Valid() && NextOf(page[..]) == old(NextOf(page[..])) && IdOf(page[..]) == old(IdOf(page[..]))
      ensures st == if slotId >= |old(Slots(page[..]))| then InvalidArgument
                    else if old(Slots(page[..]))[slotId].None? then NotFound
                    else if |old(Slots(page[..]))[slotId].value| != |payload| then InvalidArgument
                    else Ok
      ensures st.Ok? ==>
                && Slots(page[..]) == old(Slots(page[..]))[slotId := Some(payload)] && FreeEndOf(page[..]) == old(FreeEndOf(page[..]))
      ensures st.Ok? ==>
                var row := U16(page[..], 24 + 4 * slotId);
                && row + |payload| <= 4096 && page[..] == old(page[..row]) + payload + old(page[row + |payload|..])
      ensures !st.Ok? ==> page[..] == old(page[..])
    {
      if slotId >= U16(page[..], 12) {
        return InvalidArgument;
      }
      ghost var s := page[..];
      var offset := HEADER_SIZE + slotId * SLOT_ENTRY_SIZE;
      var rowOffset, rowSize := U16(page[..], offset), U16(page[..], offset + 2);
      if rowSize == 0 {
        return NotFound;
      }
      assert SlotInBounds(s, slotId);
      if rowOffset + rowSize > PAGE_SIZE || rowOffset < U16(page[..], 16) {
        return Corruption;
      }
      if |payload| != rowSize {
        return InvalidArgument;
      }
      CopyInto(page, rowOffset, payload);
      UpdateReplaces(s, page[..], slotId, payload);
      return Ok;
    }
  }
}

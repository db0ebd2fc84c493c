/**
 Two tables on two pages, byte for byte: what becomes of a row when the RID of
 one table is used with the other.
 */
module TwoTables {
  import opened Bytes
  import opened Core
  import opened Schemas
  import opened Codec
  import opened SlottedPages
  import opened TableModel
  import opened Chains
  import opened PageAccess
  import Layout

  /** One column of bytes, with and without nulls. */
  const MAYBE: Schema := [Column([0x6E], ByteType, true, false, 0)]
  const ALWAYS: Schema := [Column([0x6E], ByteType, false, false, 0)]
  const NONE: Row := [Null(ByteType)]
  const SEVEN: Row := [Byte(7)]

  lemma TheirSchemas()
    ensures Schemas.Valid(MAYBE) && Schemas.Valid(ALWAYS)
    ensures Layout.EncodedSizeOf(MAYBE) == Layout.EncodedSizeOf(ALWAYS) == 16
    ensures Encodable(MAYBE, NONE) && Encodable(MAYBE, SEVEN) && Encodable(ALWAYS, SEVEN)
  {
    assert ColumnOk(MAYBE[0]) && ColumnOk(ALWAYS[0]);
    assert Layout.EndOf(MAYBE, 1) == 9 && Layout.EndOf(ALWAYS, 1) == 9;
  }

  /** A row that is not null has the same bytes in both tables. */
  lemma SameBytes()
    ensures Encodable(MAYBE, SEVEN) && Encodable(ALWAYS, SEVEN)
    ensures Encoded(MAYBE, SEVEN) == Encoded(ALWAYS, SEVEN)
  {
    TheirSchemas();
    assert Layout.StartOf(MAYBE, 0) == Layout.StartOf(ALWAYS, 0) == 8;
    assert Prefix(MAYBE, SEVEN, 0) == Prefix(ALWAYS, SEVEN, 0);
    assert Prefix(MAYBE, SEVEN, 1) == Prefix(ALWAYS, SEVEN, 1);
  }

  /** A null is not readable in the table that has none. */
  lemma NullIsNotAlways()
    ensures Schemas.Valid(ALWAYS) && Encodable(MAYBE, NONE)
    ensures !Decodable(ALWAYS, Encoded(MAYBE, NONE))
  {
    TheirSchemas();
    FlagRoundTrip(MAYBE, NONE, 0);
    assert !FieldDecodes(ALWAYS, Encoded(MAYBE, NONE), 0);
  }

  // ---------- pages ----------

  function ByteAt(id: byte, payload: Bytes, k: nat): byte
    requires |payload| == 16 && k < PAGE_SIZE
  {
    if k >= 4080 then payload[k - 4080]
    else if k == 0 then id
    else if k == 4 || k == 12 then 1
    else if 8 <= k < 12 then 0xFF
    else if k == 14 then 28
    else if k == 16 || k == 24 then 0xF0
    else if k == 17 || k == 25 then 0x0F
    else if k == 26 then 16
    else 0
  }

  /** The page that initialize and one insertRow of 16 bytes leave. */
  function OnePayload(id: byte, payload: Bytes): Page
    requires |payload| == 16
  {
    seq(PAGE_SIZE, k requires 0 <= k < PAGE_SIZE => ByteAt(id, payload, k))
  }

  lemma OnePayloadPage(id: byte, payload: Bytes)
    requires |payload| == 16
    ensures NewTablePage(OnePayload(id, payload), id, payload)
  {
    var b := OnePayload(id, payload);
    assert CountOf(b) == 1 && FreeStartOf(b) == 28 && FreeEndOf(b) == 4080;
    assert RowOffsetOf(b, 0) == 4080 && RowSizeOf(b, 0) == 16;
    assert SlotInBounds(b, 0);
    assert b[4080..4096] == payload;
  }

  /** Page 1 is the table MAYBE with one null row, page 2 the table ALWAYS with the row 7. */
  function Pages(): (m: Store)
  {
    TheirSchemas();
    map[1 := OnePayload(1, Encoded(MAYBE, NONE)), 2 := OnePayload(2, Encoded(ALWAYS, SEVEN))]
  }

  lemma OnePageTable(m: Store, s: Schema, p: PageId, row: Row)
    requires Schemas.Valid(s) && Encodable(s, row) && p in m && p != INVALID_PAGE_ID
    requires NewTablePage(m[p], p, Encoded(s, row))
    ensures IsChain(m, s, [p]) && Get(TableOf(m, s, [p]), RID(p, 0)) == Live(CutRow(row))
  {
    StoredRow(s, row);
    assert RowPage(m, s, p) && Linked(m, [p], 0);
    CellOfSlot(m, s, [p], 0, 0);
  }

  lemma BothTables()
    ensures Schemas.Valid(MAYBE) && Schemas.Valid(ALWAYS)
    ensures Encodable(MAYBE, NONE) && Encodable(MAYBE, SEVEN) && Encodable(ALWAYS, SEVEN)
    ensures var m := Pages();
            && m.Keys == {1, 2} && WellFormed(m[1]) && WellFormed(m[2])
            && Slots(m[1]) == [Some(Encoded(MAYBE, NONE))] && Slots(m[2]) == [Some(Encoded(ALWAYS, SEVEN))]
            && IsChain(m, MAYBE, [1]) && Get(TableOf(m, MAYBE, [1]), RID(1, 0)) == Live(NONE)
            && IsChain(m, ALWAYS, [2]) && Get(TableOf(m, ALWAYS, [2]), RID(2, 0)) == Live(SEVEN)
  {
    hide Encoded, WellFormed, Slots, Encodable, Layout.EncodedSizeOf, Schemas.Valid, IsChain, TableOf;
    TheirSchemas();
    OnePayloadPage(1, Encoded(MAYBE, NONE));
    OnePayloadPage(2, Encoded(ALWAYS, SEVEN));
    OnePageTable(Pages(), MAYBE, 1, NONE);
    OnePageTable(Pages(), ALWAYS, 2, SEVEN);
    assert CutRow(NONE) == NONE && CutRow(SEVEN) == SEVEN;
  }

  // ---------- the RID of one table used with the other ----------

  const SEVENS: RID := RID(2, 0)
  const NONES: RID := RID(1, 0)

  /** MAYBE hands out the row of ALWAYS, which is not its own. */
  lemma ForeignRowIsRead()
    ensures var m := Pages();
            && Schemas.Valid(MAYBE) && IsChain(m, MAYBE, [1]) && OnTablePage(m, SEVENS)
            && ReadAnswer(m, MAYBE, SEVENS) == Success(SEVEN)
            && Get(TableOf(m, MAYBE, [1]), SEVENS) == Unused
  {
    hide Encoded, WellFormed, Slots, Encodable, Layout.EncodedSizeOf, Schemas.Valid, IsChain, TableOf, Decodable, Decoded;
    BothTables();
    SameBytes();
    RowRoundTrip(MAYBE, SEVEN);
    CellFromSlot(Pages(), MAYBE, [1], SEVENS);
    assert CutRow(SEVEN) == SEVEN;
  }

  /** ALWAYS cannot read the null of MAYBE, and so says what it says of a RID it never handed out. */
  lemma ForeignNullIsRefused()
    ensures var m := Pages();
            && Schemas.Valid(ALWAYS) && IsChain(m, ALWAYS, [2]) && OnTablePage(m, NONES)
            && ReadAnswer(m, ALWAYS, NONES) == Failure(InvalidArgument)
            && Get(TableOf(m, ALWAYS, [2]), NONES) == Unused
  {
    hide Encoded, WellFormed, Slots, Encodable, Layout.EncodedSizeOf, Schemas.Valid, IsChain, TableOf, Decodable, Decoded;
    BothTables();
    NullIsNotAlways();
    CellFromSlot(Pages(), ALWAYS, [2], NONES);
  }

  /** The pages after MAYBE deleted SEVENS, and after it overwrote SEVENS with a null. */
  function DeletedPages(): Store {
    Pages()[2 := Pages()[2][26 := 0]]
  }

  function OverwrittenPages(): Store {
    TheirSchemas();
    Pages()[2 := OnePayload(2, Encoded(MAYBE, NONE))]
  }

  lemma PagesAfter()
    ensures SlotChanged(Pages(), DeletedPages(), 2, 0, None)
    ensures Encodable(MAYBE, NONE) && SlotChanged(Pages(), OverwrittenPages(), 2, 0, Some(Encoded(MAYBE, NONE)))
  {
    hide Encoded, Layout.EncodedSizeOf;
    BothTables();
    TheirSchemas();
    OnePayloadPage(2, Encoded(ALWAYS, SEVEN));
    OnePayloadPage(2, Encoded(MAYBE, NONE));
    DeleteTombstones(Pages()[2], DeletedPages()[2], 0);
  }

  /** MAYBE deletes the row of ALWAYS; asked again it says deleted, though it never had the row. */
  lemma ForeignRowIsDeleted()
    ensures OnTablePage(Pages(), SEVENS) && ChangeAnswer(Pages(), SEVENS, None) == Status.Ok
    ensures var m' := DeletedPages();
            && SlotChanged(Pages(), m', 2, 0, None)
            && Schemas.Valid(ALWAYS) && IsChain(m', ALWAYS, [2]) && Get(TableOf(m', ALWAYS, [2]), SEVENS) == Deleted
            && Schemas.Valid(MAYBE) && IsChain(m', MAYBE, [1]) && Get(TableOf(m', MAYBE, [1]), SEVENS) == Unused
            && OnTablePage(m', SEVENS) && ReadAnswer(m', MAYBE, SEVENS) == Failure(NotFound)
  {
    hide Encoded, WellFormed, Slots, Encodable, Layout.EncodedSizeOf, Schemas.Valid, IsChain, TableOf, Decodable, Decoded, Next,
         DeletedPages;
    BothTables();
    PagesAfter();
    var m, m' := Pages(), DeletedPages();
    SlotChangeIsStep(m, m', ALWAYS, [2], SEVENS, None);
    StepOnMap(TableOf(m, ALWAYS, [2]), Delete(SEVENS), TableOf(m', ALWAYS, [2]), SEVENS);
    SameChain(m, m', MAYBE, [1]);
    CellFromSlot(m, MAYBE, [1], SEVENS);
  }

  /** MAYBE overwrites the row of ALWAYS with a null, which leaves ALWAYS no chain at all. */
  lemma ForeignRowIsOverwritten(c: seq<PageId>)
    ensures OnTablePage(Pages(), SEVENS) && Encodable(MAYBE, NONE)
    ensures ChangeAnswer(Pages(), SEVENS, Some(Layout.EncodedSizeOf(MAYBE))) == Status.Ok
    ensures SlotChanged(Pages(), OverwrittenPages(), 2, 0, Some(Encoded(MAYBE, NONE)))
    ensures Schemas.Valid(ALWAYS) && (|c| > 0 && c[0] == 2 ==> !IsChain(OverwrittenPages(), ALWAYS, c))
  {
    hide Encoded, WellFormed, Slots, Encodable, Schemas.Valid, IsChain, TableOf, Decodable, Decoded, OverwrittenPages;
    BothTables();
    TheirSchemas();
    NullIsNotAlways();
    PagesAfter();
    assert |Encoded(ALWAYS, SEVEN)| == Layout.EncodedSizeOf(ALWAYS);
    if |c| > 0 && c[0] == 2 {
      UndecodablePayloadBreaks(Pages(), OverwrittenPages(), ALWAYS, [2], SEVENS, Encoded(MAYBE, NONE), c);
    }
  }
}

/**
 A table on the page store: a chain of slotted pages linked by their next
 page ids, read as a table of rows.
 */
module Chains {
  import opened Bytes
  import opened Core
  import opened Finite
  import opened Schemas
  import opened Codec
  import opened SlottedPages
  import opened TableModel
  import Layout

  ghost predicate PayloadOk(s: Schema, slot: Option<Bytes>)
    requires Schemas.Valid(s)
  {
    slot.Some? ==> Decodable(s, slot.value)
  }

  /** A well-formed table page that carries its own id and decodable rows. */
  ghost predicate RowPage(m: Store, s: Schema, p: PageId)
    requires Schemas.Valid(s)
  {
    && p in m && p != INVALID_PAGE_ID
    && WellFormed(m[p]) && IdOf(m[p]) == p
    && (forall j | 0 <= j < |Slots(m[p])| :: PayloadOk(s, Slots(m[p])[j]))
  }

  ghost predicate Linked(m: Store, chain: seq<PageId>, i: nat)
    requires i < |chain|
  {
    chain[i] in m && NextOf(m[chain[i]]) == if i + 1 < |chain| then chain[i + 1] else INVALID_PAGE_ID
  }

  /** Following next page ids from the first page visits `chain` and ends. */
  ghost predicate IsChain(m: Store, s: Schema, chain: seq<PageId>)
    requires Schemas.Valid(s)
  {
    && |chain| > 0
    && Distinct(chain)
    && (forall i: nat | i < |chain| :: RowPage(m, s, chain[i]))
    && (forall i: nat | i < |chain| :: Linked(m, chain, i))
  }

  ghost function RowOf(s: Schema, slot: Option<Bytes>): Option<Row> {
    match slot
    case None => None
    case Some(b) => if |b| == Layout.EncodedSizeOf(s) then Some(Decoded(s, b)) else None
  }

  ghost function RowsOf(s: Schema, slots: seq<Option<Bytes>>): (r: seq<Option<Row>>)
    ensures |r| == |slots|
  {
    seq(|slots|, j requires 0 <= j < |slots| => RowOf(s, slots[j]))
  }

  ghost function PageRows(m: Store, s: Schema, p: PageId): seq<Option<Row>>
    requires p in m && WellFormed(m[p])
  {
    RowsOf(s, Slots(m[p]))
  }

  /** The rows of the table whose pages are `chain`. */
  ghost function TableOf(m: Store, s: Schema, chain: seq<PageId>): (t: Table)
    requires Schemas.Valid(s) && IsChain(m, s, chain)
    ensures |t| == |chain| && forall i: nat | i < |chain| :: t[i] == PageAt(m, s, chain, i)
  {
    seq(|chain|, i requires 0 <= i < |chain| => PageAt(m, s, chain, i))
  }

  ghost function PageAt(m: Store, s: Schema, chain: seq<PageId>, i: nat): TablePage
    requires Schemas.Valid(s) && IsChain(m, s, chain) && i < |chain|
  {
    assert RowPage(m, s, chain[i]);
    TablePage(chain[i], PageRows(m, s, chain[i]))
  }

  lemma ChainIsStored(m: Store, s: Schema, chain: seq<PageId>)
    requires Schemas.Valid(s) && IsChain(m, s, chain)
    ensures forall p | p in chain :: p in m
  {
  }

  lemma TableOfIsTable(m: Store, s: Schema, chain: seq<PageId>)
    requires Schemas.Valid(s) && IsChain(m, s, chain)
    ensures IsTable(TableOf(m, s, chain))
  {
  }

  /** Page p has the same link in both stores. */
  ghost predicate SameLink(m: Store, m': Store, p: PageId) {
    p in m && p in m' && NextOf(m'[p]) == NextOf(m[p])
  }

  /** The chain is determined by its first page and the links, whatever else the pages hold. */
  lemma {:induction false} ChainFromLinks(m: Store, s: Schema, a: seq<PageId>, m': Store, s': Schema, b: seq<PageId>, n: nat)
    requires Schemas.Valid(s) && IsChain(m, s, a) && Schemas.Valid(s') && IsChain(m', s', b) && a[0] == b[0]
    requires forall p | p in a :: SameLink(m, m', p)
    requires n <= |a|
    ensures n <= |b| && a[..n] == b[..n]
    ensures n == |a| ==> a == b
  {
    if n == 0 {
    } else {
      if n > 1 {
        ChainFromLinks(m, s, a, m', s', b, n - 1);
        assert a[..n - 1][n - 2] == b[..n - 1][n - 2];
        assert SameLink(m, m', a[n - 2]);
        assert Linked(m, a, n - 2) && Linked(m', b, n - 2);
        assert RowPage(m, s, a[n - 1]);
      }
      if n == |a| {
        assert a[..n][n - 1] == b[..n][n - 1];
        assert SameLink(m, m', a[n - 1]);
        assert Linked(m, a, n - 1) && Linked(m', b, n - 1);
        assert n < |b| ==> RowPage(m', s', b[n]);
      }
    }
  }

  /** In particular by the first page and the bytes. */
  lemma ChainFromBytes(m: Store, s: Schema, a: seq<PageId>, b: seq<PageId>)
    requires Schemas.Valid(s) && IsChain(m, s, a) && IsChain(m, s, b) && a[0] == b[0]
    ensures a == b
  {
    forall p | p in a
      ensures SameLink(m, m, p)
    {
      var i: nat :| i < |a| && a[i] == p;
      assert RowPage(m, s, a[i]);
    }
    ChainFromLinks(m, s, a, m, s, b, |a|);
  }

  /** Every page that was there, `except` aside, still has the bytes it had. */
  ghost predicate Keeps(m: Store, m': Store, except: seq<PageId>) {
    forall p | p in m :: p in m' && (p !in except ==> m'[p] == m[p])
  }

  ghost predicate RoomOn(m: Store, p: PageId, payloadSize: nat) {
    p in m && HasSpace(m[p], payloadSize)
  }

  /** Every slot of the page took the size of one row, as on pages only this table wrote. */
  ghost predicate PackedPage(b: Page, size: nat) {
    WellFormed(b) && FreeEndOf(b) == PAGE_SIZE - |Slots(b)| * size
  }

  ghost predicate Packed(m: Store, s: Schema, chain: seq<PageId>) {
    forall i: nat | i < |chain| :: chain[i] in m && PackedPage(m[chain[i]], Layout.EncodedSizeOf(s))
  }

  /** How many rows of that size a page takes in all. */
  function RowsPerPage(size: nat): nat {
    4072 / (size + 4)
  }

  /** Header, directory and payloads of one more row fit a page exactly below that number. */
  lemma RowsFit(n: nat, size: nat)
    ensures 24 + 4 * (n + 1) + size <= 4096 - n * size <==> n < RowsPerPage(size)
  {
    var k, q := size + 4, RowsPerPage(size);
    assert n * size + 4 * n == n * k;
    if n < q {
      ProductGrows(k, n + 1, q);
    } else {
      ProductGrows(k, q + 1, n + 1);
    }
  }

  lemma ProductGrows(k: nat, a: nat, b: nat)
    requires a <= b
    ensures k * a <= k * b && (a > 0 ==> a * k == (a - 1) * k + k)
  {
  }

  /** A packed page has room for one more row exactly while it has had fewer than that. */
  lemma PackedRoom(b: Page, size: nat)
    requires PackedPage(b, size)
    ensures HasSpace(b, size) <==> |Slots(b)| < RowsPerPage(size)
  {
    RoomInBytes(b, size);
    hide WellFormed, Slots, HasSpace;
    RowsFit(|Slots(b)|, size);
  }

  lemma PackedMore(b: Page, b': Page, size: nat)
    requires PackedPage(b, size) && WellFormed(b') && |Slots(b')| == |Slots(b)| + 1 && FreeEndOf(b') == FreeEndOf(b) - size
    ensures PackedPage(b', size)
  {
    hide WellFormed, Slots, FreeEndOf;
    ProductGrows(size, |Slots(b)|, |Slots(b)| + 1);
  }

  /** Changes off the chain, and changes of a slot anywhere, leave packed pages packed. */
  lemma StaysPacked(m: Store, m': Store, s: Schema, chain: seq<PageId>)
    requires Packed(m, s, chain)
    requires forall p | p in chain && p in m ::
               p in m' && (m'[p] == m[p] || (WellFormed(m[p]) && WellFormed(m'[p]) && |Slots(m'[p])| == |Slots(m[p])| && FreeEndOf(m'[p]) == FreeEndOf(m[p])))
    ensures Packed(m', s, chain)
  {
    hide WellFormed, Slots, Layout.EncodedSizeOf;
    forall i: nat | i < |chain|
      ensures chain[i] in m' && PackedPage(m'[chain[i]], Layout.EncodedSizeOf(s))
    {
      assert chain[i] in m && PackedPage(m[chain[i]], Layout.EncodedSizeOf(s));
    }
  }

  /** Page q is new, and nothing else changed. */
  ghost predicate OneMorePage(m: Store, m': Store, q: PageId) {
    q !in m && q in m' && m' == m[q := m'[q]]
  }

  /** Changes elsewhere do not touch the table. */
  lemma SameChain(m: Store, m': Store, s: Schema, chain: seq<PageId>)
    requires Schemas.Valid(s) && IsChain(m, s, chain)
    requires forall i: nat | i < |chain| :: chain[i] in m && chain[i] in m' && m'[chain[i]] == m[chain[i]]
    ensures IsChain(m', s, chain) && TableOf(m', s, chain) == TableOf(m, s, chain)
  {
    forall i: nat | i < |chain|
      ensures RowPage(m', s, chain[i]) && Linked(m', chain, i)
    {
      assert RowPage(m, s, chain[i]) && Linked(m, chain, i);
    }
    forall i: nat | i < |chain|
      ensures PageAt(m', s, chain, i) == PageAt(m, s, chain, i)
    {
    }
  }

  /** Rewriting one page of the chain, keeping its id and its link. */
  lemma ChangeChainPage(m: Store, m': Store, s: Schema, chain: seq<PageId>, i: nat)
    requires Schemas.Valid(s) && IsChain(m, s, chain) && i < |chain|
    requires forall k: nat | k < |chain| && k != i :: chain[k] in m && chain[k] in m' && m'[chain[k]] == m[chain[k]]
    requires RowPage(m', s, chain[i]) && Linked(m', chain, i)
    ensures IsChain(m', s, chain)
    ensures TableOf(m', s, chain) == WithSlots(TableOf(m, s, chain), i, PageRows(m', s, chain[i]))
  {
    forall k: nat | k < |chain|
      ensures RowPage(m', s, chain[k]) && Linked(m', chain, k)
    {
      assert RowPage(m, s, chain[k]) && Linked(m, chain, k);
    }
    forall k: nat | k < |chain|
      ensures k != i ==> PageAt(m', s, chain, k) == PageAt(m, s, chain, k)
    {
    }
    var t, t' := TableOf(m, s, chain), TableOf(m', s, chain);
    assert t[i] == PageAt(m, s, chain, i) && t'[i] == PageAt(m', s, chain, i);
  }

  lemma StoredRow(s: Schema, row: Row)
    requires Schemas.Valid(s) && Encodable(s, row)
    ensures PayloadOk(s, Some(Encoded(s, row)))
    ensures RowOf(s, Some(Encoded(s, row))) == Some(CutRow(row))
    ensures Encoded(s, row) != []
  {
    RowRoundTrip(s, row);
  }

  /** A row appended to the last page of the chain. */
  lemma AppendToLast(m: Store, m': Store, s: Schema, chain: seq<PageId>, row: Row)
    requires Schemas.Valid(s) && IsChain(m, s, chain) && Encodable(s, row)
    requires var p := chain[|chain| - 1];
             && p in m && p in m' && m' == m[p := m'[p]]
             && WellFormed(m[p]) && WellFormed(m'[p]) && NextOf(m'[p]) == NextOf(m[p]) && IdOf(m'[p]) == IdOf(m[p])
             && Slots(m'[p]) == Slots(m[p]) + [Some(Encoded(s, row))]
    ensures IsChain(m', s, chain)
    ensures var p := chain[|chain| - 1];
            |Slots(m[p])| < INVALID_SLOT_ID &&
            Next(TableOf(m, s, chain), Insert(RID(p, |Slots(m[p])|), CutRow(row)), TableOf(m', s, chain))
  {
    hide WellFormed, Slots, IdOf, NextOf, Encodable, Encoded, CutRow, Schemas.Valid;
    var n := |chain| - 1;
    var p := chain[n];
    assert RowPage(m, s, p) && Linked(m, chain, n);
    StoredRow(s, row);
    assert RowPage(m', s, p);
    ChangeChainPage(m, m', s, chain, n);
    TableOfIsTable(m, s, chain);
    TableOfIsTable(m', s, chain);
    var t := TableOf(m, s, chain);
    assert t[n] == PageAt(m, s, chain, n);
    assert PageRows(m', s, p) == PageRows(m, s, p) + [Some(CutRow(row))];
    assert Appended(t, TableOf(m', s, chain), RID(p, |Slots(m[p])|), CutRow(row));
  }

  /** A new page with one row linked behind the last page of the chain. */
  lemma LinkNewPage(m: Store, m': Store, s: Schema, chain: seq<PageId>, q: PageId, row: Row)
    requires Schemas.Valid(s) && IsChain(m, s, chain) && Encodable(s, row)
    requires q !in m && q in m' && q != INVALID_PAGE_ID
    requires var p := chain[|chain| - 1];
             && p in m && p in m' && m' == m[q := m'[q]][p := m'[p]]
             && WellFormed(m[p]) && WellFormed(m'[p]) && NextOf(m'[p]) == q && IdOf(m'[p]) == IdOf(m[p])
             && Slots(m'[p]) == Slots(m[p])
    requires WellFormed(m'[q]) && IdOf(m'[q]) == q && NextOf(m'[q]) == INVALID_PAGE_ID
    requires Slots(m'[q]) == [Some(Encoded(s, row))]
    ensures IsChain(m', s, chain + [q])
    ensures Next(TableOf(m, s, chain), Insert(RID(q, 0), CutRow(row)), TableOf(m', s, chain + [q]))
  {
    hide WellFormed, Slots, IdOf, NextOf, Encodable, Encoded, CutRow, Schemas.Valid;
    var n := |chain| - 1;
    var chain' := chain + [q];
    StoredRow(s, row);
    forall k: nat | k < |chain|
      ensures chain[k] != q && RowPage(m', s, chain[k]) && Linked(m', chain', k)
    {
      assert RowPage(m, s, chain[k]) && Linked(m, chain, k);
      assert k < n ==> chain[k] != chain[n];
    }
    assert RowPage(m', s, q) && Linked(m', chain', |chain|);
    TableOfIsTable(m, s, chain);
    TableOfIsTable(m', s, chain');
    var t, t' := TableOf(m, s, chain), TableOf(m', s, chain');
    forall k: nat | k < |chain|
      ensures t'[k] == t[k] && t[k].id == chain[k]
    {
      assert t'[k] == PageAt(m', s, chain', k) && t[k] == PageAt(m, s, chain, k);
    }
    assert t'[|chain|] == PageAt(m', s, chain', |chain|);
    assert PageRows(m', s, q) == [Some(CutRow(row))];
    assert AppendedOnNewPage(t, t', RID(q, 0), CutRow(row));
  }

  /** The page p with the payload in one slot replaced, or its row removed. */
  ghost predicate SlotChanged(m: Store, m': Store, p: PageId, slotId: nat, payload: Option<Bytes>) {
    && p in m && p in m' && m' == m[p := m'[p]]
    && WellFormed(m[p]) && WellFormed(m'[p]) && NextOf(m'[p]) == NextOf(m[p]) && IdOf(m'[p]) == IdOf(m[p])
    && slotId < |Slots(m[p])| && Slots(m[p])[slotId].Some? && Slots(m'[p]) == Slots(m[p])[slotId := payload]
    && FreeEndOf(m'[p]) == FreeEndOf(m[p])
  }

  /** One slot of one page replaced by a decodable payload or a tombstone. */
  lemma ReplaceSlot(m: Store, m': Store, s: Schema, chain: seq<PageId>, i: nat, j: nat, payload: Option<Bytes>)
    requires Schemas.Valid(s) && IsChain(m, s, chain) && i < |chain| && j < INVALID_SLOT_ID
    requires PayloadOk(s, payload) && SlotChanged(m, m', chain[i], j, payload)
    ensures IsChain(m', s, chain)
    ensures ReplacedIn(TableOf(m, s, chain), TableOf(m', s, chain), i, RID(chain[i], j), RowOf(s, payload))
    ensures IsTable(TableOf(m, s, chain)) && IsTable(TableOf(m', s, chain))
  {
    hide WellFormed, Slots, IdOf, NextOf, Decoded, Schemas.Valid;
    var p := chain[i];
    assert RowPage(m, s, p) && Linked(m, chain, i);
    assert PayloadOk(s, Slots(m[p])[j]);
    assert RowPage(m', s, p);
    ChangeChainPage(m, m', s, chain, i);
    TableOfIsTable(m, s, chain);
    TableOfIsTable(m', s, chain);
    var t := TableOf(m, s, chain);
    assert t[i] == PageAt(m, s, chain, i);
    assert PageRows(m', s, p) == PageRows(m, s, p)[j := RowOf(s, payload)];
  }

  /** The table operation that putting this payload into the slot of rid amounts to. */
  ghost function SlotStep(s: Schema, rid: RID, payload: Option<Bytes>): Step
    requires Schemas.Valid(s) && PayloadOk(s, payload)
  {
    match payload case None => Delete(rid) case Some(b) => Update(rid, Decoded(s, b))
  }

  lemma SlotChangeIsStep(m: Store, m': Store, s: Schema, chain: seq<PageId>, rid: RID, payload: Option<Bytes>)
    requires Schemas.Valid(s) && IsChain(m, s, chain) && rid.pageId in chain
    requires PayloadOk(s, payload) && SlotChanged(m, m', rid.pageId, rid.slotId, payload)
    ensures IsChain(m', s, chain) && Keeps(m, m', chain)
    ensures Next(TableOf(m, s, chain), SlotStep(s, rid, payload), TableOf(m', s, chain))
  {
    var i: nat :| i < |chain| && chain[i] == rid.pageId;
    ReplaceSlot(m, m', s, chain, i, rid.slotId, payload);
    assert RID(chain[i], rid.slotId) == rid;
  }

  lemma UndecodableOnChain(m: Store, m': Store, s: Schema, chain: seq<PageId>, rid: RID, b: Bytes)
    requires Schemas.Valid(s) && rid.pageId in chain
    requires SlotChanged(m, m', rid.pageId, rid.slotId, Some(b)) && !Decodable(s, b)
    ensures !IsChain(m', s, chain)
  {
    var i: nat :| i < |chain| && chain[i] == rid.pageId;
    assert !PayloadOk(s, Slots(m'[chain[i]])[rid.slotId]);
    assert !RowPage(m', s, chain[i]);
  }

  /** A payload the schema cannot read, put on a page of the chain, leaves no chain at all from that first page. */
  lemma UndecodablePayloadBreaks(m: Store, m': Store, s: Schema, chain: seq<PageId>, rid: RID, b: Bytes, c: seq<PageId>)
    requires Schemas.Valid(s) && IsChain(m, s, chain) && rid.pageId in chain
    requires SlotChanged(m, m', rid.pageId, rid.slotId, Some(b)) && !Decodable(s, b)
    requires |c| > 0 && c[0] == chain[0]
    ensures !IsChain(m', s, c)
  {
    hide WellFormed, Slots, IdOf, Decodable, Schemas.Valid;
    if IsChain(m', s, c) {
      forall p | p in chain
        ensures SameLink(m, m', p)
      {
        var k: nat :| k < |chain| && chain[k] == p;
        assert RowPage(m, s, chain[k]);
      }
      ChainFromLinks(m, s, chain, m', s, c, |chain|);
    }
    UndecodableOnChain(m, m', s, chain, rid, b);
  }

  /** What a slot of the page holds is the cell of the table. */
  lemma CellOfSlot(m: Store, s: Schema, chain: seq<PageId>, i: nat, slotId: SlotId)
    requires Schemas.Valid(s) && IsChain(m, s, chain) && i < |chain|
    ensures chain[i] in m && WellFormed(m[chain[i]])
    ensures var slots := Slots(m[chain[i]]);
            Get(TableOf(m, s, chain), RID(chain[i], slotId)) ==
            if slotId >= |slots| then Unused
            else match slots[slotId] case None => Deleted case Some(b) => Live(RowOf(s, Some(b)).value)
    ensures forall j | 0 <= j < |Slots(m[chain[i]])| :: PayloadOk(s, Slots(m[chain[i]])[j])
  {
    assert RowPage(m, s, chain[i]);
    TableOfIsTable(m, s, chain);
    var t := TableOf(m, s, chain);
    assert t[i] == PageAt(m, s, chain, i);
    var k := FindPage(t, chain[i]);
    if slotId < |Slots(m[chain[i]])| {
      assert PayloadOk(s, Slots(m[chain[i]])[slotId]);
    }
  }
}

/**
 Runs of inserts: the bytes of a page after any of them, and the page and slot
 of the n-th row of a table.
 */
module PageRuns {
  import opened Bytes
  import opened Core
  import opened Schemas
  import opened Codec
  import opened SlottedPages
  import opened TableModel
  import opened Chains
  import opened PagedTables
  import Layout

  // ---------- one page ----------

  /** The bytes some payloads take together. */
  function Total(ps: seq<Bytes>): nat {
    if ps == [] then 0 else Total(ps[..|ps| - 1]) + |ps[|ps| - 1]|
  }

  ghost predicate InsertStep(s: Page, t: Page, payload: Bytes) {
    WellFormed(s) && HasSpace(s, |payload|) && InsertedBytes(s, t, payload)
  }

  /** A page as initialize leaves it, then one insertRow after the other. */
  ghost predicate PageRun(pages: seq<Page>, ps: seq<Bytes>, q: PageId) {
    && |pages| == |ps| + 1
    && EmptyPageBytes(pages[0], q)
    && (forall i: nat | i < |ps| :: InsertStep(pages[i], pages[i + 1], ps[i]))
  }

  /** Entry i of the directory, and the payload it points to: payloads are stacked down from the end of the page. */
  ghost predicate EntryBytes(b: Page, ps: seq<Bytes>, i: nat)
    requires i < |ps|
  {
    && 28 + 4 * i <= 4096 && Total(ps[..i]) + |ps[i]| <= 4096
    && U16(b, 24 + 4 * i) == 4096 - Total(ps[..i]) - |ps[i]| && U16(b, 26 + 4 * i) == |ps[i]|
    && b[4096 - Total(ps[..i]) - |ps[i]|..4096 - Total(ps[..i])] == ps[i]
  }

  /** Every byte of a table page with these payloads and no next page, as serializationMap.txt lists them. */
  ghost predicate TablePageBytes(b: Page, q: PageId, ps: seq<Bytes>) {
    && U32(b, 0) == q && b[4] == 1 && b[5] == 0 && U32(b, 8) == 0xFFFF_FFFF
    && 24 + 4 * |ps| + Total(ps) <= 4096
    && U16(b, 12) == |ps| && U16(b, 14) == 24 + 4 * |ps| && U16(b, 16) == 4096 - Total(ps)
    && (forall k | 6 <= k < 8 || 18 <= k < 24 || 24 + 4 * |ps| <= k < 4096 - Total(ps) :: b[k] == 0)
    && (forall i: nat | i < |ps| :: EntryBytes(b, ps, i))
  }

  function SlotsFor(ps: seq<Bytes>): seq<Option<Bytes>> {
    seq(|ps|, i requires 0 <= i < |ps| => if ps[i] == [] then None else Some(ps[i]))
  }

  lemma EmptyPage(b: Page, q: PageId)
    requires EmptyPageBytes(b, q)
    ensures WellFormed(b) && Slots(b) == SlotsFor([]) && TablePageBytes(b, q, [])
  {
  }

  lemma {:induction false} TotalGrows(ps: seq<Bytes>, i: nat)
    requires i < |ps|
    ensures Total(ps[..i]) + |ps[i]| <= Total(ps)
    decreases |ps|
  {
    var n := |ps| - 1;
    if i == n {
    } else {
      TotalGrows(ps[..n], i);
      assert ps[..n][..i] == ps[..i];
    }
  }

  lemma TotalMore(ps: seq<Bytes>, p: Bytes)
    ensures Total(ps + [p]) == Total(ps) + |p|
  {
    assert (ps + [p])[..|ps|] == ps;
  }

  /** One more insert keeps every entry there was. */
  lemma KeepsEntry(s: Page, t: Page, q: PageId, ps: seq<Bytes>, p: Bytes, i: nat)
    requires TablePageBytes(s, q, ps) && i < |ps|
    requires InsertStep(s, t, p)
    ensures EntryBytes(t, ps + [p], i)
  {
    assert EntryBytes(s, ps, i);
    TotalGrows(ps, i);
    assert (ps + [p])[..i] == ps[..i];
    var (a, z) := (4096 - Total(ps[..i]) - |ps[i]|, 4096 - Total(ps[..i]));
    assert forall k | a <= k < z :: t[k] == s[k];
    assert t[a..z] == s[a..z];
  }

  lemma OneMorePayload(s: Page, t: Page, q: PageId, ps: seq<Bytes>, p: Bytes)
    requires TablePageBytes(s, q, ps) && InsertStep(s, t, p)
    ensures TablePageBytes(t, q, ps + [p])
  {
    hide EntryBytes;
    TotalMore(ps, p);
    forall i: nat | i < |ps|
      ensures EntryBytes(t, ps + [p], i)
    {
      KeepsEntry(s, t, q, ps, p, i);
    }
    LastEntry(s, t, q, ps, p);
  }

  lemma LastEntry(s: Page, t: Page, q: PageId, ps: seq<Bytes>, p: Bytes)
    requires TablePageBytes(s, q, ps) && InsertStep(s, t, p)
    ensures EntryBytes(t, ps + [p], |ps|)
  {
    assert (ps + [p])[..|ps|] == ps;
  }

  /**
     After any run of inserts every byte of the page is known, its slots are the
     payloads, and one more payload is taken exactly if header, directory and
     payloads then fit the page.
   */
  lemma {:induction false} PageOfInserts(pages: seq<Page>, ps: seq<Bytes>, q: PageId, n: nat)
    requires PageRun(pages, ps, q) && n <= |ps|
    ensures TablePageBytes(pages[n], q, ps[..n])
    ensures WellFormed(pages[n]) && Slots(pages[n]) == SlotsFor(ps[..n])
    ensures forall size: nat :: HasSpace(pages[n], size) <==> 24 + 4 * (n + 1) + Total(ps[..n]) + size <= 4096
    decreases n
  {
    if n == 0 {
      EmptyPage(pages[0], q);
    } else {
      PageOfInserts(pages, ps, q, n - 1);
      hide InsertedBytes, WellFormed, Slots, TablePageBytes, HasSpace;
      assert InsertStep(pages[n - 1], pages[n], ps[n - 1]);
      assert ps[..n] == ps[..n - 1] + [ps[n - 1]];
      OneMorePayload(pages[n - 1], pages[n], q, ps[..n - 1], ps[n - 1]);
      InsertAppends(pages[n - 1], pages[n], ps[n - 1]);
    }
    RoomLeft(pages[n], q, ps[..n]);
  }

  lemma RoomLeft(b: Page, q: PageId, ps: seq<Bytes>)
    requires TablePageBytes(b, q, ps)
    ensures forall size: nat :: HasSpace(b, size) <==> 24 + 4 * (|ps| + 1) + Total(ps) + size <= 4096
  {
  }

  // ---------- the pages of one table ----------

  /** A table operation that opens a page exactly when the last one has had `cap` rows. */
  ghost predicate PackedStep(t: Table, step: Step, t': Table, cap: nat) {
    Next(t, step, t') && (step.Insert? ==> (|t'| == |t| <==> |t[|t| - 1].slots| < cap))
  }

  /** Every insert into a chain that only this code wrote is one. */
  lemma InsertIsPackedStep(m: Store, m': Store, s: Schema, c: seq<PageId>, c': seq<PageId>, row: Row, r: Result<RID>)
    requires Schemas.Valid(s) && IsChain(m, s, c) && Packed(m, s, c) && r.Success?
    requires PagedTable.InsertOutcome(m, m', s, c, c', row, r)
    requires c' == c <==> RoomOn(m, c[|c| - 1], Layout.EncodedSizeOf(s))
    ensures PackedStep(TableOf(m, s, c), Insert(r.value, CutRow(row)), TableOf(m', s, c'), RowsPerPage(Layout.EncodedSizeOf(s)))
  {
    hide IsChain, WellFormed, Slots, HasSpace, Layout.EncodedSizeOf, Next;
    PagedTable.LastPage(m, s, c);
    var n := |c| - 1;
    assert TableOf(m, s, c)[n] == PageAt(m, s, c, n);
    assert PackedPage(m[c[n]], Layout.EncodedSizeOf(s));
    PackedRoom(m[c[n]], Layout.EncodedSizeOf(s));
  }

  function Inserts(steps: seq<Step>): nat {
    if steps == [] then 0
    else Inserts(steps[..|steps| - 1]) + if steps[|steps| - 1].Insert? then 1 else 0
  }

  /** All pages but the last have had cap rows, the last has had some unless there were none at all. */
  ghost predicate Shape(t: Table, cap: nat, c: nat) {
    && |t| > 0
    && (forall i | 0 <= i < |t| - 1 :: |t[i].slots| == cap)
    && c == cap * (|t| - 1) + |t[|t| - 1].slots|
    && |t[|t| - 1].slots| <= cap
  }

  lemma ShapeStep(t: Table, step: Step, t': Table, cap: nat, c: nat) returns (i: nat)
    requires cap > 0 && PackedStep(t, step, t', cap) && Shape(t, cap, c)
    ensures Shape(t', cap, if step.Insert? then c + 1 else c)
    ensures step.Insert? ==> i < |t'| && t'[i].id == step.rid.pageId && step.rid.slotId < cap && c == cap * i + step.rid.slotId
  {
    i := |t| - 1;
    match step
    case Nothing =>
    case Insert(rid, row) =>
      if |t[i].slots| < cap {
        assert Appended(t, t', rid, row);
      } else {
        assert AppendedOnNewPage(t, t', rid, row);
        assert cap * |t| == cap * (|t| - 1) + cap;
        i := |t|;
      }
    case Update(rid, row) =>
      var k: nat :| k < |t| && ReplacedIn(t, t', k, rid, Some(row));
    case Delete(rid) =>
      var k: nat :| k < |t| && ReplacedIn(t, t', k, rid, None);
  }

  lemma DivMod(c: nat, cap: nat, i: nat, k: nat)
    requires k < cap && c == cap * i + k
    ensures c / cap == i && c % cap == k
  {
    EuclidUnique(cap, i, k, c / cap, c % cap);
  }

  /**
     Over any run from a new table, whatever was updated or deleted in between,
     row c (counting from 0) goes to slot c mod cap of page c div cap.
   */
  lemma {:induction false} NthInsert(ts: seq<Table>, steps: seq<Step>, cap: nat, n: nat)
    requires cap > 0 && |ts| == |steps| + 1 && n <= |steps|
    requires |ts[0]| == 1 && ts[0][0].slots == []
    requires forall k | 0 <= k < |steps| :: PackedStep(ts[k], steps[k], ts[k + 1], cap)
    ensures Shape(ts[n], cap, Inserts(steps[..n]))
    ensures n < |steps| && steps[n].Insert? ==>
              var c := Inserts(steps[..n]);
              && c / cap < |ts[n + 1]| && ts[n + 1][c / cap].id == steps[n].rid.pageId
              && steps[n].rid.slotId == c % cap
    decreases n
  {
    hide PackedStep, Shape;
    if n == 0 {
      NewShape(ts[0], cap);
    } else {
      NthInsert(ts, steps, cap, n - 1);
      var _ := ShapeStep(ts[n - 1], steps[n - 1], ts[n], cap, Inserts(steps[..n - 1]));
      assert steps[..n][..n - 1] == steps[..n - 1];
    }
    if n < |steps| {
      var i := ShapeStep(ts[n], steps[n], ts[n + 1], cap, Inserts(steps[..n]));
      if steps[n].Insert? {
        DivMod(Inserts(steps[..n]), cap, i, steps[n].rid.slotId);
      }
    }
  }

  lemma NewShape(t: Table, cap: nat)
    requires |t| == 1 && t[0].slots == []
    ensures Shape(t, cap, 0)
  {
  }
}

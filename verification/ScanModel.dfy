/**
 A resumable scan over a table that may change between calls: what one load of
 the next row may do, and what whole runs of loads and table operations return.
 */
module ScanModel {
  import opened Bytes
  import opened Core
  import opened Codec
  import opened TableModel

  datatype Entry = Entry(rid: RID, row: Row)

  /** The next position to look at: a page index and a slot, or past the end. */
  datatype Cursor = At(page: nat, slot: nat) | Done

  ghost predicate Passed(c: Cursor, i: nat, j: nat) {
    match c
    case Done => true
    case At(p, s) => i < p || (i == p && j < s)
  }

  ghost predicate InTable(t: Table, c: Cursor) {
    c.At? ==> c.page < |t| && c.slot <= |t[c.page].slots|
  }

  ghost predicate LiveAt(t: Table, i: nat, j: nat) {
    i < |t| && j < |t[i].slots| && t[i].slots[j].Some?
  }

  ghost function EntryAt(t: Table, i: nat, j: nat): Entry
    requires LiveAt(t, i, j) && j < INVALID_SLOT_ID
  {
    Entry(RID(t[i].id, j), t[i].slots[j].value)
  }

  /** From c to c' the scan only moves forward and leaves out no row. */
  ghost predicate Skips(t: Table, c: Cursor, c': Cursor) {
    && (forall i: nat, j: nat | Passed(c, i, j) :: Passed(c', i, j))
    && (forall i: nat, j: nat | LiveAt(t, i, j) && Passed(c', i, j) :: Passed(c, i, j))
  }

  datatype Outcome = Found(entry: Entry) | Exhausted | Failed(status: Status)

  ghost predicate FoundAt(t: Table, c: Cursor, c': Cursor, entry: Entry, i: nat, j: nat)
    requires IsTable(t)
  {
    && LiveAt(t, i, j) && !Passed(c, i, j) && Skips(t, c, At(i, j))
    && entry == EntryAt(t, i, j) && c' == At(i, j + 1)
  }

  /** One load of the next row: the first live row at or after the cursor. */
  ghost predicate Loads(t: Table, c: Cursor, c': Cursor, o: Outcome)
    requires IsTable(t)
  {
    && InTable(t, c')
    && match o
       case Found(entry) => exists i: nat, j: nat :: FoundAt(t, c, c', entry, i, j)
       case Exhausted => c' == Done && Skips(t, c, Done)
       case Failed(_) => Skips(t, c, c')
  }

  // ---------- runs ----------

  datatype Place = Place(page: nat, slot: nat, entry: Entry)

  /** `seen` are the rows loaded so far; the last one may still be cached. */
  datatype Scan = Scan(table: Table, cursor: Cursor, seen: seq<Place>, cached: bool)

  datatype Event = Changed(step: Step) | Loaded(outcome: Outcome) | Yielded

  function Outputs(s: Scan): seq<Place> {
    if s.cached && s.seen != [] then s.seen[..|s.seen| - 1] else s.seen
  }

  ghost predicate Start(s: Scan) {
    IsTable(s.table) && s.cursor == At(0, 0) && s.seen == [] && !s.cached
  }

  ghost predicate ScanStep(s: Scan, e: Event, s': Scan) {
    match e
    case Changed(step) => Next(s.table, step, s'.table) && s' == s.(table := s'.table)
    case Loaded(o) =>
      && IsTable(s.table) && !s.cached && s'.table == s.table
      && Loads(s.table, s.cursor, s'.cursor, o)
      && (match o
          case Found(entry) =>
            && s'.cached && |s'.seen| == |s.seen| + 1 && s'.seen[..|s.seen|] == s.seen
            && var p := s'.seen[|s.seen|];
               p.entry == entry && FoundAt(s.table, s.cursor, s'.cursor, entry, p.page, p.slot)
          case _ => !s'.cached && s'.seen == s.seen)
    case Yielded => s.cached && s' == s.(cached := false)
  }

  ghost predicate ScanRun(ss: seq<Scan>, es: seq<Event>) {
    && |ss| == |es| + 1 && Start(ss[0])
    && (forall k | 0 <= k < |es| :: ScanStep(ss[k], es[k], ss[k + 1]))
  }

  ghost predicate Earlier(p: Place, q: Place) {
    p.page < q.page || (p.page == q.page && p.slot < q.slot)
  }

  ghost predicate PlaceOk(s: Scan, p: Place) {
    && p.page < |s.table| && p.slot < |s.table[p.page].slots|
    && p.entry.rid.pageId == s.table[p.page].id && p.entry.rid.slotId == p.slot
    && Passed(s.cursor, p.page, p.slot)
  }

  ghost predicate SeenAt(s: Scan, i: nat, j: nat) {
    exists k :: 0 <= k < |s.seen| && s.seen[k].page == i && s.seen[k].slot == j
  }

  /** t0 is the table when the scan began. */
  ghost predicate ScanInv(t0: Table, s: Scan) {
    && IsTable(t0) && IsTable(s.table) && Grows(t0, s.table) && InTable(s.table, s.cursor)
    && (forall k | 0 <= k < |s.seen| :: PlaceOk(s, s.seen[k]))
    && (forall k, l | 0 <= k < l < |s.seen| :: Earlier(s.seen[k], s.seen[l]))
    && (forall i: nat, j: nat | i < |t0| && j < |t0[i].slots| && LiveAt(s.table, i, j) && Passed(s.cursor, i, j) ::
          SeenAt(s, i, j))
    && (s.cached ==> s.seen != [])
  }

  lemma GrowsTrans(a: Table, b: Table, c: Table)
    requires Grows(a, b) && Grows(b, c)
    ensures Grows(a, c)
  {
  }

  lemma ChangeKeepsScan(t0: Table, s: Scan, step: Step, s': Scan)
    requires ScanInv(t0, s) && ScanStep(s, Changed(step), s')
    ensures ScanInv(t0, s')
  {
    hide Next;
    assert Next(s.table, step, s'.table);
    NextOk(s.table, step, s'.table);
    StepGrows(s.table, step, s'.table);
    GrowsTrans(t0, s.table, s'.table);
    forall k | 0 <= k < |s'.seen|
      ensures PlaceOk(s', s'.seen[k])
    {
      assert PlaceOk(s, s.seen[k]);
    }
    forall i: nat, j: nat | i < |t0| && j < |t0[i].slots| && LiveAt(s'.table, i, j) && Passed(s'.cursor, i, j)
      ensures SeenAt(s', i, j)
    {
      assert LiveAt(s.table, i, j);
      assert SeenAt(s, i, j);
    }
  }

  lemma NextOk(t: Table, step: Step, t': Table)
    requires Next(t, step, t')
    ensures IsTable(t) && IsTable(t')
  {
  }

  lemma LoadKeepsScan(t0: Table, s: Scan, o: Outcome, s': Scan)
    requires ScanInv(t0, s) && ScanStep(s, Loaded(o), s')
    ensures ScanInv(t0, s')
  {
    if o.Found? {
      FoundKeepsScan(t0, s, o.entry, s');
    } else {
      forall k | 0 <= k < |s.seen|
        ensures PlaceOk(s', s'.seen[k])
      {
        assert PlaceOk(s, s.seen[k]);
      }
      forall i: nat, j: nat | i < |t0| && j < |t0[i].slots| && LiveAt(s'.table, i, j) && Passed(s'.cursor, i, j)
        ensures SeenAt(s', i, j)
      {
        assert SeenAt(s, i, j);
      }
    }
  }

  lemma FoundKeepsScan(t0: Table, s: Scan, entry: Entry, s': Scan)
    requires ScanInv(t0, s) && ScanStep(s, Loaded(Found(entry)), s')
    ensures ScanInv(t0, s')
  {
    hide Grows, IsTable;
    var n := |s.seen|;
    var p := s'.seen[n];
    assert FoundAt(s.table, s.cursor, s'.cursor, entry, p.page, p.slot);
    forall k | 0 <= k < n
      ensures s'.seen[k] == s.seen[k] && PlaceOk(s', s'.seen[k]) && Earlier(s'.seen[k], p)
    {
      assert s'.seen[k] == s'.seen[..n][k];
      assert PlaceOk(s, s.seen[k]);
    }
    assert PlaceOk(s', p);
    forall i: nat, j: nat | i < |t0| && j < |t0[i].slots| && LiveAt(s'.table, i, j) && Passed(s'.cursor, i, j)
      ensures SeenAt(s', i, j)
    {
      if Passed(s.cursor, i, j) {
        assert SeenAt(s, i, j);
        var k :| 0 <= k < n && s.seen[k].page == i && s.seen[k].slot == j;
        assert s'.seen[k] == s.seen[k];
      } else {
        assert !Passed(At(p.page, p.slot), i, j);
        assert s'.seen[n].page == i && s'.seen[n].slot == j;
      }
    }
  }

  lemma StartKeepsScan(s: Scan)
    requires Start(s)
    ensures ScanInv(s.table, s)
  {
  }

  /** The scan invariant holds in every state of every run. */
  lemma {:induction false} ScanInvariant(ss: seq<Scan>, es: seq<Event>, n: nat)
    requires ScanRun(ss, es) && n <= |es|
    ensures ScanInv(ss[0].table, ss[n])
    decreases n
  {
    if n == 0 {
      StartKeepsScan(ss[0]);
    } else {
      ScanInvariant(ss, es, n - 1);
      assert ScanStep(ss[n - 1], es[n - 1], ss[n]);
      match es[n - 1]
      case Changed(step) => ChangeKeepsScan(ss[0].table, ss[n - 1], step, ss[n]);
      case Loaded(o) => LoadKeepsScan(ss[0].table, ss[n - 1], o, ss[n]);
      case Yielded =>
        forall k | 0 <= k < |ss[n].seen|
          ensures PlaceOk(ss[n], ss[n].seen[k])
        {
          assert PlaceOk(ss[n - 1], ss[n - 1].seen[k]);
        }
        forall i: nat, j: nat | i < |ss[0].table| && j < |ss[0].table[i].slots| && LiveAt(ss[n].table, i, j) && Passed(ss[n].cursor, i, j)
          ensures SeenAt(ss[n], i, j)
        {
          assert SeenAt(ss[n - 1], i, j);
        }
    }
  }

  /** Returned RIDs strictly advance in chain-then-slot order, so none repeats. */
  lemma OutputsAdvance(ss: seq<Scan>, es: seq<Event>, k: nat, l: nat)
    requires ScanRun(ss, es) && k < l < |Outputs(ss[|es|])|
    ensures var out := Outputs(ss[|es|]);
            Earlier(out[k], out[l]) && out[k].entry.rid != out[l].entry.rid
  {
    ScanInvariant(ss, es, |es|);
    var s := ss[|es|];
    assert PlaceOk(s, s.seen[k]) && PlaceOk(s, s.seen[l]);
  }

  lemma LivePosition(t: Table, rid: RID) returns (i: nat)
    requires IsTable(t) && Get(t, rid).Live?
    ensures LiveAt(t, i, rid.slotId) && t[i].id == rid.pageId
  {
    i := FindPage(t, rid.pageId);
  }

  ghost predicate ReturnedOnlyAt(out: seq<Place>, rid: RID, k: nat) {
    && k < |out| && out[k].entry.rid == rid
    && (forall l | 0 <= l < |out| && out[l].entry.rid == rid :: l == k)
  }

  /**
     A row that is live when the scan begins and when it is exhausted is
     returned exactly once, whatever changed in between.
   */
  lemma LiveRowsReturnedOnce(ss: seq<Scan>, es: seq<Event>, rid: RID)
    requires ScanRun(ss, es) && ss[|es|].cursor.Done? && !ss[|es|].cached
    requires Get(ss[0].table, rid).Live? && Get(ss[|es|].table, rid).Live?
    ensures exists k: nat :: ReturnedOnlyAt(Outputs(ss[|es|]), rid, k)
  {
    ScanInvariant(ss, es, |es|);
    var t0, s := ss[0].table, ss[|es|];
    var i := LivePosition(t0, rid);
    var i' := LivePosition(s.table, rid);
    assert s.table[i].id == t0[i].id;
    assert i == i';
    assert SeenAt(s, i, rid.slotId);
    var k :| 0 <= k < |s.seen| && s.seen[k].page == i && s.seen[k].slot == rid.slotId;
    assert PlaceOk(s, s.seen[k]);
    forall l | 0 <= l < |s.seen| && s.seen[l].entry.rid == rid
      ensures l == k
    {
      if l < k {
        OutputsAdvance(ss, es, l, k);
      } else if k < l {
        OutputsAdvance(ss, es, k, l);
      }
    }
    assert ReturnedOnlyAt(Outputs(s), rid, k);
  }

  /** Every row that was loaded was in the table, under its RID, at some moment of the run. */
  lemma {:induction false} LoadedRowsWereLive(ss: seq<Scan>, es: seq<Event>, n: nat, k: nat)
    requires ScanRun(ss, es) && n <= |es| && k < |ss[n].seen|
    ensures exists m :: 0 <= m < n && Get(ss[m].table, ss[n].seen[k].entry.rid) == Live(ss[n].seen[k].entry.row)
    decreases n
  {
    assert n > 0;
    assert ScanStep(ss[n - 1], es[n - 1], ss[n]);
    if k < |ss[n - 1].seen| {
      assert ss[n].seen[k] == ss[n - 1].seen[k] by {
        if es[n - 1].Loaded? && es[n - 1].outcome.Found? {
          assert ss[n].seen[..|ss[n - 1].seen|][k] == ss[n].seen[k];
        }
      }
      LoadedRowsWereLive(ss, es, n - 1, k);
    } else {
      var t, p := ss[n - 1].table, ss[n].seen[k];
      assert FoundAt(t, ss[n - 1].cursor, ss[n].cursor, p.entry, p.page, p.slot);
      var i := FindPage(t, t[p.page].id);
      assert i == p.page;
      assert Get(ss[n - 1].table, p.entry.rid) == Live(p.entry.row);
    }
  }

  // ---------- a scan nothing interleaves with ----------

  /** The live rows before slot j of page i, in chain-then-slot order. */
  ghost function LiveBefore(t: Table, i: nat, j: nat): seq<Entry>
    requires IsTable(t) && i < |t| && j <= |t[i].slots|
    decreases i, j
  {
    if j > 0 then
      LiveBefore(t, i, j - 1) + if LiveAt(t, i, j - 1) then [EntryAt(t, i, j - 1)] else []
    else if i > 0 then LiveBefore(t, i - 1, |t[i - 1].slots|)
    else []
  }

  /** All live rows of the table, in order. */
  ghost function LiveRows(t: Table): seq<Entry>
    requires IsTable(t)
  {
    LiveBefore(t, |t| - 1, |t[|t| - 1].slots|)
  }

  ghost function LiveUpTo(t: Table, c: Cursor): seq<Entry>
    requires IsTable(t) && InTable(t, c)
  {
    if c.Done? then LiveRows(t) else LiveBefore(t, c.page, c.slot)
  }

  lemma {:induction false} NothingBetween(t: Table, c: Cursor, i: nat, j: nat)
    requires IsTable(t) && c.At? && InTable(t, c) && i < |t| && j <= |t[i].slots|
    requires !Passed(c, i, j)
    requires forall a: nat, b: nat | LiveAt(t, a, b) && Passed(At(i, j), a, b) :: Passed(c, a, b)
    ensures LiveBefore(t, i, j) == LiveBefore(t, c.page, c.slot)
    decreases i, j
  {
    if i == c.page && j == c.slot {
    } else if j > 0 {
      assert !LiveAt(t, i, j - 1) by {
        assert Passed(At(i, j), i, j - 1);
      }
      forall a: nat, b: nat | LiveAt(t, a, b) && Passed(At(i, j - 1), a, b)
        ensures Passed(c, a, b)
      {
        assert Passed(At(i, j), a, b);
      }
      NothingBetween(t, c, i, j - 1);
    } else {
      forall a: nat, b: nat | LiveAt(t, a, b) && Passed(At(i - 1, |t[i - 1].slots|), a, b)
        ensures Passed(c, a, b)
      {
        assert Passed(At(i, j), a, b);
      }
      NothingBetween(t, c, i - 1, |t[i - 1].slots|);
    }
  }

  lemma LoadExtends(t: Table, c: Cursor, c': Cursor, o: Outcome)
    requires IsTable(t) && InTable(t, c) && Loads(t, c, c', o)
    ensures LiveUpTo(t, c') == LiveUpTo(t, c) + if o.Found? then [o.entry] else []
  {
    match o
    case Found(entry) =>
      var i: nat, j: nat :| FoundAt(t, c, c', entry, i, j);
      NothingBetween(t, c, i, j);
    case Exhausted =>
      if c.At? {
        EndReached(t, c);
      }
    case Failed(_) =>
      if c.At? && c'.At? {
        assert Passed(c, c'.page, c'.slot) ==> Passed(c', c'.page, c'.slot);
        NothingBetween(t, c, c'.page, c'.slot);
      } else if c.At? {
        EndReached(t, c);
      } else {
        assert c'.At? ==> Passed(c, c'.page, c'.slot);
      }
  }

  lemma EndReached(t: Table, c: Cursor)
    requires IsTable(t) && c.At? && InTable(t, c) && Skips(t, c, Done)
    ensures LiveBefore(t, c.page, c.slot) == LiveRows(t)
  {
    var n := |t| - 1;
    forall a: nat, b: nat | LiveAt(t, a, b) && Passed(At(n, |t[n].slots|), a, b)
      ensures Passed(c, a, b)
    {
      assert Passed(Done, a, b);
    }
    NothingBetween(t, c, n, |t[n].slots|);
  }

  ghost function EntriesOf(ps: seq<Place>): seq<Entry> {
    seq(|ps|, k requires 0 <= k < |ps| => ps[k].entry)
  }

  /** The scan has loaded exactly the live rows before its cursor. */
  ghost predicate QuietOk(t0: Table, s: Scan) {
    && IsTable(s.table) && s.table == t0 && InTable(s.table, s.cursor)
    && EntriesOf(s.seen) == LiveUpTo(s.table, s.cursor)
  }

  lemma QuietStep(t0: Table, s: Scan, e: Event, s': Scan)
    requires QuietOk(t0, s) && !e.Changed? && ScanStep(s, e, s')
    ensures QuietOk(t0, s')
  {
    hide Loads, LiveUpTo, IsTable, InTable, FoundAt;
    if e.Loaded? {
      LoadEndsInTable(s.table, s.cursor, s'.cursor, e.outcome);
      LoadExtends(s.table, s.cursor, s'.cursor, e.outcome);
      if e.outcome.Found? {
        assert s'.seen == s.seen + [s'.seen[|s.seen|]];
      }
    }
  }

  lemma LoadEndsInTable(t: Table, c: Cursor, c': Cursor, o: Outcome)
    requires IsTable(t) && Loads(t, c, c', o)
    ensures InTable(t, c')
  {
  }

  lemma {:induction false} QuietScan(ss: seq<Scan>, es: seq<Event>, n: nat)
    requires ScanRun(ss, es) && n <= |es|
    requires forall k | 0 <= k < |es| :: !es[k].Changed?
    ensures QuietOk(ss[0].table, ss[n])
    decreases n
  {
    hide ScanStep, QuietOk;
    if n == 0 {
      QuietStart(ss[0]);
    } else {
      QuietScan(ss, es, n - 1);
      assert ScanStep(ss[n - 1], es[n - 1], ss[n]);
      QuietStep(ss[0].table, ss[n - 1], es[n - 1], ss[n]);
    }
  }

  lemma QuietStart(s: Scan)
    requires Start(s)
    ensures QuietOk(s.table, s)
  {
  }

  /** With no change in between, an exhausted scan has returned exactly the live rows, in order. */
  lemma QuietScanReturnsTable(ss: seq<Scan>, es: seq<Event>)
    requires ScanRun(ss, es) && ss[|es|].cursor.Done? && !ss[|es|].cached
    requires forall k | 0 <= k < |es| :: !es[k].Changed?
    ensures EntriesOf(Outputs(ss[|es|])) == LiveRows(ss[0].table)
  {
    QuietScan(ss, es, |es|);
  }
}

/**
 The buffer pool on values: what the frames, the free slots, the page map and
 the replacer's list say together, and what each step of the pool does to the
 page store clients see.
 */
module PoolModel {
  import opened Bytes
  import opened Finite
  import LRU

  datatype FrameView = FrameView(id: PageId, data: Page, pinCount: nat, dirty: bool)

  datatype PoolView = PoolView(
    frames: seq<FrameView>, freeSlots: seq<nat>, pageSlot: map<PageId, nat>, evictable: seq<nat>)

  const NO_HOLE: int := -1

  ghost predicate Holds(v: PoolView, p: PageId) {
    p in v.pageSlot && v.pageSlot[p] < |v.frames|
  }

  ghost function FrameOf(v: PoolView, p: PageId): FrameView
    requires Holds(v, p)
  {
    v.frames[v.pageSlot[p]]
  }

  ghost predicate FreeSlot(v: PoolView, s: nat) {
    s < |v.frames| && v.frames[s].id == INVALID_PAGE_ID && v.frames[s].pinCount == 0
  }

  ghost predicate PageOk(v: PoolView, hole: int, p: PageId) {
    Holds(v, p) && FrameOf(v, p).id == p && v.pageSlot[p] != hole && v.pageSlot[p] !in v.freeSlots
  }

  ghost predicate SlotOk(v: PoolView, hole: int, s: nat)
    requires s < |v.frames|
  {
    var f := v.frames[s];
    && (s in v.freeSlots ==> s != hole && FreeSlot(v, s))
    && (s != hole && s !in v.freeSlots ==> f.id in v.pageSlot && v.pageSlot[f.id] == s)
    && (s in v.evictable <==> s != hole && s !in v.freeSlots && f.pinCount == 0)
  }

  ghost predicate InRange(v: PoolView, s: nat) {
    s < |v.frames|
  }

  /**
     Every slot except `hole` (a slot in transit) is free or holds exactly one
     page, and the replacer lists exactly the slots of unpinned pages.
   */
  ghost predicate Structured(v: PoolView, hole: int) {
    && Distinct(v.freeSlots)
    && Distinct(v.evictable)
    && (forall s | s in v.freeSlots :: InRange(v, s))
    && (forall s | s in v.evictable :: InRange(v, s))
    && (forall p | p in v.pageSlot :: PageOk(v, hole, p))
    && (forall s: nat | s < |v.frames| :: SlotOk(v, hole, s))
  }

  /** The frame of p agrees with the disk, or is marked to be written. */
  ghost predicate Settled(v: PoolView, store: Store, p: PageId) {
    Holds(v, p) ==> FrameOf(v, p).dirty || (p in store && FrameOf(v, p).data == store[p])
  }

  ghost predicate SyncOk(v: PoolView, store: Store, p: PageId) {
    && Holds(v, p)
    && p in store
    && Kind(FrameOf(v, p).data) != FREE_PAGE_KIND
    && (FrameOf(v, p).pinCount == 0 ==> Settled(v, store, p))
  }

  ghost predicate Synced(v: PoolView, store: Store) {
    forall p | p in v.pageSlot :: SyncOk(v, store, p)
  }

  ghost predicate PoolInv(v: PoolView, store: Store, hole: int) {
    && Structured(v, hole)
    && Synced(v, store)
    && INVALID_PAGE_ID !in store
  }

  /** The page store clients see: frame bytes if resident, disk bytes otherwise. */
  ghost function Logical(v: PoolView, store: Store): Store {
    map p | p in store :: if Holds(v, p) then FrameOf(v, p).data else store[p]
  }

  /** The pinned pages and their pin counts. */
  ghost function Pins(v: PoolView): map<PageId, nat> {
    map p | p in v.pageSlot && Holds(v, p) && FrameOf(v, p).pinCount > 0 :: FrameOf(v, p).pinCount
  }

  /** Resident pages whose frame was changed with no unpin saying so yet. */
  ghost function Unreported(v: PoolView, store: Store): set<PageId> {
    set p | p in v.pageSlot && !Settled(v, store, p)
  }

  ghost predicate HasFrame(v: PoolView) {
    v.freeSlots != [] || v.evictable != []
  }

  // ---------- the state of the pool after each of its steps ----------

  /** The slot the next page gets: the last free one, or else the oldest evictable one. */
  ghost function SlotTaken(v: PoolView): nat {
    if v.freeSlots != [] then v.freeSlots[|v.freeSlots| - 1] else if v.evictable != [] then v.evictable[0] else 0
  }

  /** That slot is an evictable one. */
  ghost predicate Evicts(v: PoolView) {
    v.freeSlots == [] && v.evictable != [] && v.evictable[0] < |v.frames|
  }

  /** The pool with that slot in transit: a victim has left the page map and is clean. */
  ghost function Taking(v: PoolView): PoolView {
    if v.freeSlots != [] then v.(freeSlots := v.freeSlots[..|v.freeSlots| - 1])
    else if Evicts(v) then
      var s := v.evictable[0];
      v.(frames := v.frames[s := v.frames[s].(dirty := false)], pageSlot := v.pageSlot - {v.frames[s].id}, evictable := v.evictable[1..])
    else v
  }

  /** The disk then: a dirty victim, and nothing else, was written. */
  ghost function StoreTaking(v: PoolView, store: Store): Store {
    if Evicts(v) && v.frames[v.evictable[0]].dirty
    then store[v.frames[v.evictable[0]].id := v.frames[v.evictable[0]].data] else store
  }

  /** A slot taken in vain: a victim is the youngest now, and clean only if it was written. */
  ghost predicate PutBack(v: PoolView, store: Store, v': PoolView, store': Store) {
    if !Evicts(v) then v' == v && store' == store
    else
      var s := v.evictable[0];
      var rotated := v.(evictable := v.evictable[1..] + [s]);
      || (v' == rotated && store' == store)
      || (v' == rotated.(frames := v.frames[s := v.frames[s].(dirty := false)]) && store' == StoreTaking(v, store))
  }

  /** The slot in transit given to a page. */
  ghost function Filled(v: PoolView, s: nat, f: FrameView): PoolView {
    if s < |v.frames| then v.(frames := v.frames[s := f], pageSlot := v.pageSlot[f.id := s]) else v
  }

  /** The frame of p replaced. */
  ghost function WithFrame(v: PoolView, p: PageId, f: FrameView): PoolView {
    if Holds(v, p) then v.(frames := v.frames[v.pageSlot[p] := f]) else v
  }

  /** The first k frames saved. */
  ghost function SavedFrames(v: PoolView, k: nat): PoolView {
    v.(frames := seq(|v.frames|, i requires 0 <= i < |v.frames| =>
      if i < k && v.frames[i].id != INVALID_PAGE_ID then v.frames[i].(dirty := false) else v.frames[i]))
  }

  ghost function SavedStore(v: PoolView, store: Store, k: nat): Store {
    map p | p in store :: if Holds(v, p) && v.pageSlot[p] < k && FrameOf(v, p).dirty then FrameOf(v, p).data else store[p]
  }

  /** The disk as it was, or with one page written back as clients see it. */
  ghost predicate AtMostOneWritten(store: Store, store': Store, pages: Store) {
    store' == store || exists q :: q in pages && store' == store[q := pages[q]]
  }

  lemma VictimWritten(v: PoolView, store: Store)
    requires PoolInv(v, store, NO_HOLE)
    ensures AtMostOneWritten(store, StoreTaking(v, store), Logical(v, store))
    ensures forall v', store' | PutBack(v, store, v', store') :: AtMostOneWritten(store, store', Logical(v, store))
  {
    hide Structured;
    if Evicts(v) {
      VictimFacts(v, store);
      var q := v.frames[v.evictable[0]].id;
      assert Holds(v, q) && Logical(v, store)[q] == v.frames[v.evictable[0]].data;
    }
  }

  lemma SaveNothing(v: PoolView, store: Store)
    ensures SavedFrames(v, 0) == v && SavedStore(v, store, 0) == store
  {
  }

  lemma SavedAll(v: PoolView)
    ensures forall s: nat | s < |v.frames| && v.frames[s].id != INVALID_PAGE_ID :: !SavedFrames(v, |v.frames|).frames[s].dirty
    ensures forall s: nat | s < |v.frames| :: SavedFrames(v, |v.frames|).frames[s].id == v.frames[s].id
    ensures |SavedFrames(v, |v.frames|).frames| == |v.frames|
  {
  }

  /** Saving the page in slot k. */
  lemma SaveStep(v: PoolView, store: Store, v1: PoolView, store1: Store, v2: PoolView, store2: Store, k: nat)
    requires PoolInv(v, store, NO_HOLE) && k < |v.frames|
    requires v1 == SavedFrames(v, k) && store1 == SavedStore(v, store, k)
    requires var p := v.frames[k].id;
             if p == INVALID_PAGE_ID then v2 == v1 && store2 == store1
             else
               && v2 == WithFrame(v1, p, v1.frames[k].(dirty := false))
               && store2 == if v1.frames[k].dirty then store1[p := v1.frames[k].data] else store1
    ensures v2 == SavedFrames(v, k + 1) && store2 == SavedStore(v, store, k + 1)
  {
    hide PoolInv, SavedStore;
    var p := v.frames[k].id;
    if p != INVALID_PAGE_ID {
      FrameIsResident(v, store, k);
      assert v1.pageSlot == v.pageSlot && v1.frames[k] == v.frames[k];
    }
    SaveStored(v, store, store2, k);
  }

  lemma SaveStored(v: PoolView, store: Store, store2: Store, k: nat)
    requires PoolInv(v, store, NO_HOLE) && k < |v.frames|
    requires var (p, f, store1) := (v.frames[k].id, v.frames[k], SavedStore(v, store, k));
             store2 == if p != INVALID_PAGE_ID && f.dirty then store1[p := f.data] else store1
    ensures store2 == SavedStore(v, store, k + 1)
  {
    var p := v.frames[k].id;
    if p != INVALID_PAGE_ID {
      FrameIsResident(v, store, k);
      ResidentInStore(v, store, NO_HOLE, p);
    }
    forall q | q in store && Holds(v, q) && v.pageSlot[q] == k
      ensures q == p
    {
      assert PageOk(v, NO_HOLE, q);
    }
    hide PoolInv;
  }

  /** Two pool states no client can tell apart. */
  ghost predicate SameToClients(v: PoolView, store: Store, v': PoolView, store': Store) {
    && Logical(v', store') == Logical(v, store)
    && Pins(v') == Pins(v)
    && Unreported(v', store') == Unreported(v, store)
  }

  /** Pages whose frames did not change keep all a client can see of them. */
  lemma SamePages(v: PoolView, store: Store, v': PoolView, store': Store)
    requires v'.pageSlot == v.pageSlot
    requires store'.Keys == store.Keys
    requires forall p | p in v.pageSlot :: Holds(v, p) && Holds(v', p) && FrameOf(v', p) == FrameOf(v, p)
    requires forall p | p in store :: store'[p] == store[p]
    ensures SameToClients(v, store, v', store')
    ensures Synced(v, store) ==> Synced(v', store')
  {
  }

  lemma EmptyPool(v: PoolView, store: Store)
    requires forall s: nat | s < |v.frames| :: FreeSlot(v, s)
    requires v.freeSlots == seq(|v.frames|, i => i) && v.pageSlot == map[] && v.evictable == []
    requires INVALID_PAGE_ID !in store
    ensures PoolInv(v, store, NO_HOLE)
    ensures Logical(v, store) == store && Pins(v) == map[] && Unreported(v, store) == {}
  {
    forall s: nat | s < |v.frames|
      ensures SlotOk(v, NO_HOLE, s)
    {
      assert v.freeSlots[s] == s;
      assert FreeSlot(v, s);
    }
    forall s | s in v.freeSlots
      ensures InRange(v, s)
    {
    }
  }

  lemma TakeFreeSlot(v: PoolView, store: Store, v': PoolView, s: nat)
    requires PoolInv(v, store, NO_HOLE) && v.freeSlots != []
    requires s == v.freeSlots[|v.freeSlots| - 1]
    requires v' == v.(freeSlots := v.freeSlots[..|v.freeSlots| - 1])
    ensures FreeSlot(v', s) && PoolInv(v', store, s)
    ensures SameToClients(v, store, v', store)
  {
    assert v.freeSlots == v'.freeSlots + [s];
    assert s in v.freeSlots && s !in v'.freeSlots;
    assert InRange(v, s) && SlotOk(v, NO_HOLE, s);
    forall t | t in v'.freeSlots
      ensures InRange(v', t)
    {
      assert InRange(v, t);
    }
    forall t | t in v'.evictable
      ensures InRange(v', t)
    {
      assert InRange(v, t);
    }
    forall t: nat | t < |v.frames|
      ensures SlotOk(v', s, t)
    {
      assert SlotOk(v, NO_HOLE, t);
    }
    forall p | p in v.pageSlot
      ensures PageOk(v', s, p) && FrameOf(v', p) == FrameOf(v, p)
    {
      assert PageOk(v, NO_HOLE, p);
    }
    SamePages(v, store, v', store);
  }

  lemma ReturnFreeSlot(v: PoolView, store: Store, v': PoolView, s: nat)
    requires FreeSlot(v, s) && PoolInv(v, store, s)
    requires v' == v.(freeSlots := v.freeSlots + [s])
    ensures PoolInv(v', store, NO_HOLE)
    ensures SameToClients(v, store, v', store)
  {
    assert SlotOk(v, s, s);
    forall t | t in v'.freeSlots
      ensures InRange(v', t)
    {
      assert t != s ==> InRange(v, t);
    }
    forall t | t in v'.evictable
      ensures InRange(v', t)
    {
      assert InRange(v, t);
    }
    forall t: nat | t < |v.frames|
      ensures SlotOk(v', NO_HOLE, t)
    {
      assert SlotOk(v, s, t);
    }
    forall p | p in v.pageSlot
      ensures PageOk(v', NO_HOLE, p) && FrameOf(v', p) == FrameOf(v, p)
    {
      assert PageOk(v, s, p);
    }
    SamePages(v, store, v', store);
  }

  /** Eviction of a clean frame forgets the page; clients see nothing. */
  lemma EvictOldest(v: PoolView, store: Store, v': PoolView)
    requires PoolInv(v, store, NO_HOLE) && v.evictable != [] && v.evictable[0] < |v.frames|
    requires var s := v.evictable[0];
             && !v.frames[s].dirty
             && v' == v.(pageSlot := v.pageSlot - {v.frames[s].id}, evictable := v.evictable[1..])
    ensures var s := v.evictable[0];
            var f := v.frames[s];
            && PoolInv(v', store, s) && SameToClients(v, store, v', store)
            && f.id !in v'.pageSlot && f.id in store && store[f.id] == f.data && f.pinCount == 0 && f.id != INVALID_PAGE_ID
            && Kind(f.data) != FREE_PAGE_KIND
  {
    var s := v.evictable[0];
    var f := v.frames[s];
    assert s in v.evictable;
    assert v.evictable == [s] + v'.evictable;
    assert SlotOk(v, NO_HOLE, s);
    assert PageOk(v, NO_HOLE, f.id) && SyncOk(v, store, f.id);
    assert FrameOf(v, f.id) == f && Settled(v, store, f.id);
    EvictKeepsStructure(v, v');
    forall p | p in v'.pageSlot
      ensures PageOk(v', s, p) && SyncOk(v', store, p)
      ensures FrameOf(v', p) == FrameOf(v, p) && Settled(v', store, p) == Settled(v, store, p)
    {
      assert PageOk(v, NO_HOLE, p) && SyncOk(v, store, p);
    }
    EvictSeen(v, store, v');
  }

  lemma EvictKeepsStructure(v: PoolView, v': PoolView)
    requires Structured(v, NO_HOLE) && v.evictable != [] && v.evictable[0] < |v.frames|
    requires v' == v.(pageSlot := v.pageSlot - {v.frames[v.evictable[0]].id}, evictable := v.evictable[1..])
    ensures Structured(v', v.evictable[0])
  {
    var s := v.evictable[0];
    assert v.evictable == [s] + v'.evictable;
    assert s in v.evictable && SlotOk(v, NO_HOLE, s);
    forall t | t in v'.freeSlots
      ensures InRange(v', t)
    {
      assert InRange(v, t);
    }
    forall t | t in v'.evictable
      ensures InRange(v', t)
    {
      assert InRange(v, t);
    }
    forall p | p in v'.pageSlot
      ensures PageOk(v', s, p)
    {
      assert PageOk(v, NO_HOLE, p);
    }
    forall t: nat | t < |v.frames|
      ensures SlotOk(v', s, t)
    {
      assert SlotOk(v, NO_HOLE, t);
    }
  }

  lemma EvictSeen(v: PoolView, store: Store, v': PoolView)
    requires v.evictable != [] && v.evictable[0] < |v.frames|
    requires var f := v.frames[v.evictable[0]];
             && v' == v.(pageSlot := v.pageSlot - {f.id}, evictable := v.evictable[1..])
             && Holds(v, f.id) && FrameOf(v, f.id) == f && f.pinCount == 0 && f.id in store && f.data == store[f.id]
    requires forall p | p in v'.pageSlot :: Holds(v, p)
    ensures SameToClients(v, store, v', store)
  {
  }

  /** What is known of the page in the oldest evictable slot. */
  lemma VictimFacts(v: PoolView, store: Store)
    requires PoolInv(v, store, NO_HOLE) && v.evictable != []
    ensures v.evictable[0] < |v.frames|
    ensures var f := v.frames[v.evictable[0]];
            && f.id in v.pageSlot && v.pageSlot[f.id] == v.evictable[0] && f.pinCount == 0
            && f.id in store && Kind(f.data) != FREE_PAGE_KIND
    ensures v.evictable[0] !in v.evictable[1..]
  {
    var s := v.evictable[0];
    assert s in v.evictable;
    assert InRange(v, s) && SlotOk(v, NO_HOLE, s);
    assert SyncOk(v, store, v.frames[s].id);
  }

  /** Writing a dirty frame back is invisible to clients. */
  lemma WriteBack(v: PoolView, store: Store, v': PoolView, store': Store, p: PageId)
    requires PoolInv(v, store, NO_HOLE) && Holds(v, p) && FrameOf(v, p).dirty
    requires store' == store[p := FrameOf(v, p).data]
    requires v' == v.(frames := v.frames[v.pageSlot[p] := FrameOf(v, p).(dirty := false)])
    ensures PoolInv(v', store', NO_HOLE) && SameToClients(v, store, v', store')
  {
    hide PoolInv, Logical, Pins, Unreported;
    ResidentFacts(v, store, p);
    ChangeFrame(v, store, v', store', p, FrameOf(v, p).(dirty := false));
  }

  /** A failed write-back puts the victim at the newest end and changes nothing else. */
  lemma RotateVictim(v: PoolView, store: Store, v': PoolView)
    requires PoolInv(v, store, NO_HOLE) && v.evictable != []
    requires v' == v.(evictable := v.evictable[1..] + [v.evictable[0]])
    ensures PoolInv(v', store, NO_HOLE) && SameToClients(v, store, v', store)
  {
    assert v.evictable == [v.evictable[0]] + v.evictable[1..];
    assert forall s :: s in v'.evictable <==> s in v.evictable;
    forall t | t in v'.freeSlots
      ensures InRange(v', t)
    {
      assert InRange(v, t);
    }
    forall t | t in v'.evictable
      ensures InRange(v', t)
    {
      assert InRange(v, t);
    }
    forall t: nat | t < |v.frames|
      ensures SlotOk(v', NO_HOLE, t)
    {
      assert SlotOk(v, NO_HOLE, t);
    }
    forall p | p in v.pageSlot
      ensures PageOk(v', NO_HOLE, p) && FrameOf(v', p) == FrameOf(v, p)
    {
      assert PageOk(v, NO_HOLE, p);
    }
    SamePages(v, store, v', store);
  }

  /**
     Put page p with the bytes the disk has for it into the slot in transit: a
     load, a fresh page, or the undoing of an eviction.
   */
  lemma FillHole(v: PoolView, store: Store, v': PoolView, store': Store, s: nat, f: FrameView)
    requires PoolInv(v, store, s) && s < |v.frames|
    requires f.id !in v.pageSlot && f.id != INVALID_PAGE_ID && Kind(f.data) != FREE_PAGE_KIND && !f.dirty
    requires store' == store[f.id := f.data]
    requires v'.frames == v.frames[s := f] && v'.pageSlot == v.pageSlot[f.id := s] && v'.freeSlots == v.freeSlots
    requires v'.evictable == if f.pinCount == 0 then v.evictable + [s] else v.evictable
    ensures PoolInv(v', store', NO_HOLE)
    ensures Logical(v', store') == Logical(v, store)[f.id := f.data]
    ensures Pins(v') == if f.pinCount == 0 then Pins(v) else Pins(v)[f.id := f.pinCount]
    ensures Unreported(v', store') == Unreported(v, store)
  {
    assert SlotOk(v, s, s);
    forall q | q in v.pageSlot
      ensures SyncOk(v', store', q)
      ensures q != f.id && FrameOf(v', q) == FrameOf(v, q) && Settled(v', store', q) == Settled(v, store, q)
    {
      assert PageOk(v, s, q) && SyncOk(v, store, q);
    }
    assert Holds(v', f.id) && FrameOf(v', f.id) == f && Settled(v', store', f.id);
    FillKeepsStructure(v, v', s, f);
    FillHoleLogical(v, store, v', store', s, f);
    FillHolePins(v, v', s, f);
  }

  lemma FillKeepsStructure(v: PoolView, v': PoolView, s: nat, f: FrameView)
    requires Structured(v, s) && s < |v.frames|
    requires f.id !in v.pageSlot && f.id != INVALID_PAGE_ID
    requires v'.frames == v.frames[s := f] && v'.pageSlot == v.pageSlot[f.id := s] && v'.freeSlots == v.freeSlots
    requires v'.evictable == if f.pinCount == 0 then v.evictable + [s] else v.evictable
    ensures Structured(v', NO_HOLE)
  {
    assert SlotOk(v, s, s);
    forall q | q in v'.pageSlot
      ensures PageOk(v', NO_HOLE, q)
    {
      assert q != f.id ==> PageOk(v, s, q);
    }
    forall t | t in v'.freeSlots
      ensures InRange(v', t)
    {
      assert InRange(v, t);
    }
    forall t | t in v'.evictable
      ensures InRange(v', t)
    {
      assert t != s ==> InRange(v, t);
    }
    forall t: nat | t < |v.frames|
      ensures SlotOk(v', NO_HOLE, t)
    {
      assert SlotOk(v, s, t);
    }
  }

  lemma FillHoleLogical(v: PoolView, store: Store, v': PoolView, store': Store, s: nat, f: FrameView)
    requires f.id !in v.pageSlot
    requires store' == store[f.id := f.data] && v'.pageSlot == v.pageSlot[f.id := s]
    requires Holds(v', f.id) && FrameOf(v', f.id) == f
    requires forall q | q in v.pageSlot :: Holds(v, q) && Holds(v', q) && FrameOf(v', q) == FrameOf(v, q)
    ensures Logical(v', store') == Logical(v, store)[f.id := f.data]
  {
  }

  lemma FillHolePins(v: PoolView, v': PoolView, s: nat, f: FrameView)
    requires f.id !in v.pageSlot && v'.pageSlot == v.pageSlot[f.id := s]
    requires Holds(v', f.id) && FrameOf(v', f.id) == f
    requires forall q | q in v.pageSlot :: Holds(v, q) && Holds(v', q) && FrameOf(v', q) == FrameOf(v, q)
    ensures Pins(v') == if f.pinCount == 0 then Pins(v) else Pins(v)[f.id := f.pinCount]
  {
  }

  /**
     Replace the frame of a resident page: pinning, unpinning, writing back and
     a client's edit are all of this form.
   */
  lemma ChangeFrame(v: PoolView, store: Store, v': PoolView, store': Store, p: PageId, f: FrameView)
    requires PoolInv(v, store, NO_HOLE) && p in v.pageSlot && Holds(v, p)
    requires f.id == p && Kind(f.data) != FREE_PAGE_KIND
    requires store'.Keys == store.Keys && forall q | q in store && q != p :: store'[q] == store[q]
    requires v'.frames == v.frames[v.pageSlot[p] := f] && v'.freeSlots == v.freeSlots && v'.pageSlot == v.pageSlot
    requires Distinct(v'.evictable)
    requires forall t :: t in v'.evictable <==> if t == v.pageSlot[p] then f.pinCount == 0 else t in v.evictable
    requires f.pinCount == 0 ==> f.dirty || (p in store' && f.data == store'[p])
    ensures PoolInv(v', store', NO_HOLE)
    ensures Logical(v', store') == Logical(v, store)[p := f.data]
    ensures Pins(v') == if f.pinCount == 0 then Pins(v) - {p} else Pins(v)[p := f.pinCount]
    ensures Unreported(v', store') ==
            if f.dirty || (p in store' && f.data == store'[p]) then Unreported(v, store) - {p} else Unreported(v, store) + {p}
  {
    var s := v.pageSlot[p];
    assert PageOk(v, NO_HOLE, p) && SyncOk(v, store, p);
    forall q | q in v.pageSlot
      ensures PageOk(v', NO_HOLE, q) && SyncOk(v', store', q)
      ensures q != p ==> FrameOf(v', q) == FrameOf(v, q) && Settled(v', store', q) == Settled(v, store, q)
    {
      assert PageOk(v, NO_HOLE, q) && SyncOk(v, store, q);
    }
    assert FrameOf(v', p) == f;
    forall t | t in v'.freeSlots
      ensures InRange(v', t)
    {
      assert InRange(v, t);
    }
    forall t | t in v'.evictable
      ensures InRange(v', t)
    {
      assert t != s ==> InRange(v, t);
    }
    forall t: nat | t < |v.frames|
      ensures SlotOk(v', NO_HOLE, t)
    {
      assert SlotOk(v, NO_HOLE, t);
    }
    ChangeFrameLogical(v, store, v', store', p, f);
    ChangeFramePins(v, v', p, f);
    ChangeFrameUnreported(v, store, v', store', p, f);
  }

  lemma ChangeFrameLogical(v: PoolView, store: Store, v': PoolView, store': Store, p: PageId, f: FrameView)
    requires p in store && store'.Keys == store.Keys && forall q | q in store && q != p :: store'[q] == store[q]
    requires p in v.pageSlot && v'.pageSlot == v.pageSlot
    requires Holds(v, p) && Holds(v', p) && FrameOf(v', p) == f
    requires forall q | q in v.pageSlot && q != p :: Holds(v, q) && Holds(v', q) && FrameOf(v', q) == FrameOf(v, q)
    ensures Logical(v', store') == Logical(v, store)[p := f.data]
  {
  }

  lemma ChangeFramePins(v: PoolView, v': PoolView, p: PageId, f: FrameView)
    requires p in v.pageSlot && v'.pageSlot == v.pageSlot
    requires Holds(v, p) && Holds(v', p) && FrameOf(v', p) == f
    requires forall q | q in v.pageSlot && q != p :: Holds(v, q) && Holds(v', q) && FrameOf(v', q) == FrameOf(v, q)
    ensures Pins(v') == if f.pinCount == 0 then Pins(v) - {p} else Pins(v)[p := f.pinCount]
  {
  }

  lemma ChangeFrameUnreported(v: PoolView, store: Store, v': PoolView, store': Store, p: PageId, f: FrameView)
    requires p in v.pageSlot && v'.pageSlot == v.pageSlot
    requires Holds(v', p) && FrameOf(v', p) == f
    requires forall q | q in v.pageSlot && q != p :: Settled(v', store', q) == Settled(v, store, q)
    ensures Unreported(v', store') ==
            if f.dirty || (p in store' && f.data == store'[p]) then Unreported(v, store) - {p} else Unreported(v, store) + {p}
  {
  }

  lemma AddPin(v: PoolView, store: Store, v': PoolView, p: PageId)
    requires PoolInv(v, store, NO_HOLE) && Holds(v, p)
    requires v' == v.(frames := v.frames[v.pageSlot[p] := FrameOf(v, p).(pinCount := FrameOf(v, p).pinCount + 1)],
                      evictable := v'.evictable)
    requires v'.evictable == LRU.Without(v.evictable, v.pageSlot[p]) && Distinct(v'.evictable)
    ensures PoolInv(v', store, NO_HOLE)
    ensures Logical(v', store) == Logical(v, store) && Unreported(v', store) == Unreported(v, store)
    ensures Pins(v') == Pins(v)[p := 1 + if p in Pins(v) then Pins(v)[p] else 0]
  {
    hide PoolInv, Logical, Pins, Unreported;
    ResidentFacts(v, store, p);
    ChangeFrame(v, store, v', store, p, FrameOf(v', p));
  }

  /** The last unpin of a page must report a change the disk does not have yet. */
  lemma DropPin(v: PoolView, store: Store, v': PoolView, p: PageId, isDirty: bool)
    requires PoolInv(v, store, NO_HOLE) && Holds(v, p) && FrameOf(v, p).pinCount > 0
    requires FrameOf(v, p).pinCount > 1 || isDirty || p !in Unreported(v, store)
    requires var f := FrameOf(v, p);
             v' == v.(frames := v.frames[v.pageSlot[p] := f.(pinCount := f.pinCount - 1, dirty := f.dirty || isDirty)],
                      evictable := v'.evictable)
    requires v'.evictable == if FrameOf(v, p).pinCount == 1 then LRU.Apply(v.evictable, LRU.Unpinned(v.pageSlot[p])) else v.evictable
    ensures PoolInv(v', store, NO_HOLE)
    ensures Logical(v', store) == Logical(v, store)
    ensures p in Pins(v)
    ensures Pins(v') == if Pins(v)[p] == 1 then Pins(v) - {p} else Pins(v)[p := Pins(v)[p] - 1]
    ensures Unreported(v', store) == if isDirty then Unreported(v, store) - {p} else Unreported(v, store)
  {
    hide PoolInv, Logical, Pins, Unreported;
    ResidentFacts(v, store, p);
    ChangeFrame(v, store, v', store, p, FrameOf(v', p));
  }

  /** A client edits the frame of a page it has pinned. */
  lemma EditFrame(v: PoolView, store: Store, v': PoolView, p: PageId, data: Page)
    requires PoolInv(v, store, NO_HOLE) && p in Pins(v) && Kind(data) != FREE_PAGE_KIND
    requires v' == v.(frames := v.frames[v.pageSlot[p] := FrameOf(v, p).(data := data)])
    ensures PoolInv(v', store, NO_HOLE)
    ensures Logical(v', store) == Logical(v, store)[p := data]
    ensures Pins(v') == Pins(v)
    ensures Unreported(v', store) <= Unreported(v, store) + {p}
  {
    hide PoolInv, Logical, Pins, Unreported;
    PinnedHolds(v, store, p);
    ResidentFacts(v, store, p);
    ChangeFrame(v, store, v', store, p, FrameOf(v', p));
  }

  lemma PinnedHolds(v: PoolView, store: Store, p: PageId)
    requires PoolInv(v, store, NO_HOLE) && p in Pins(v)
    ensures Holds(v, p) && p in v.pageSlot
  {
  }

  lemma ResidentFacts(v: PoolView, store: Store, p: PageId)
    requires PoolInv(v, store, NO_HOLE) && Holds(v, p)
    ensures p in store && p in Logical(v, store) && Logical(v, store)[p] == FrameOf(v, p).data
    ensures Kind(FrameOf(v, p).data) != FREE_PAGE_KIND && FrameOf(v, p).id == p
    ensures v.pageSlot[p] in v.evictable <==> FrameOf(v, p).pinCount == 0
    ensures p in Pins(v) <==> FrameOf(v, p).pinCount > 0
    ensures p in Pins(v) ==> Pins(v)[p] == FrameOf(v, p).pinCount
    ensures p in Unreported(v, store) <==> !(FrameOf(v, p).dirty || FrameOf(v, p).data == store[p])
    ensures Distinct(v.evictable)
  {
    assert PageOk(v, NO_HOLE, p) && SyncOk(v, store, p) && SlotOk(v, NO_HOLE, v.pageSlot[p]);
  }

  /** One pin and one unpin leave the pin counts as they were. */
  lemma PinThenUnpin(pins: map<PageId, nat>, p: PageId, c: nat)
    requires if p in pins then pins[p] == c && c > 0 else c == 0
    ensures (if c == 0 then pins[p := 1 + c] - {p} else pins[p := 1 + c][p := c]) == pins
  {
  }

  lemma HoleNotEvictable(v: PoolView, store: Store, s: nat)
    requires PoolInv(v, store, s) && s < |v.frames|
    ensures s !in v.evictable
  {
    assert SlotOk(v, s, s);
  }

  lemma AbsentSeenOnDisk(v: PoolView, store: Store, p: PageId)
    requires p !in v.pageSlot && p in store
    ensures p in Logical(v, store) && Logical(v, store)[p] == store[p]
  {
  }

  lemma NotPinned(v: PoolView, p: PageId)
    requires p !in v.pageSlot
    ensures p !in Pins(v)
  {
  }

  lemma SameKeys(v: PoolView, store: Store)
    ensures Logical(v, store).Keys == store.Keys
  {
  }

  lemma ResidentInStore(v: PoolView, store: Store, hole: int, p: PageId)
    requires PoolInv(v, store, hole) && p in v.pageSlot
    ensures p in store && Holds(v, p)
  {
  }

  lemma FrameIsResident(v: PoolView, store: Store, s: nat)
    requires PoolInv(v, store, NO_HOLE) && s < |v.frames| && v.frames[s].id != INVALID_PAGE_ID
    ensures v.frames[s].id in v.pageSlot && v.pageSlot[v.frames[s].id] == s
  {
    assert SlotOk(v, NO_HOLE, s);
  }

  /** Nothing dirty and nothing unreported: the disk alone is the whole store. */
  lemma CleanPoolIsDisk(v: PoolView, store: Store)
    requires PoolInv(v, store, NO_HOLE) && Unreported(v, store) == {}
    requires forall s: nat | s < |v.frames| && v.frames[s].id != INVALID_PAGE_ID :: !v.frames[s].dirty
    ensures Logical(v, store) == store
  {
    forall p | p in store && Holds(v, p)
      ensures FrameOf(v, p).data == store[p]
    {
      assert p !in Unreported(v, store);
      assert PageOk(v, NO_HOLE, p);
    }
  }

  /** The slots of the pinned pages. */
  ghost function PinnedSlots(v: PoolView): set<nat> {
    set p | p in Pins(v) :: v.pageSlot[p]
  }

  lemma PinnedSlotsSize(v: PoolView, store: Store)
    requires PoolInv(v, store, NO_HOLE)
    ensures |PinnedSlots(v)| == |Pins(v)|
    ensures forall s: nat :: s in PinnedSlots(v) <==> s < |v.frames| && s !in v.freeSlots && s !in v.evictable
  {
    var pinned := Pins(v).Keys;
    SlotsOfPages(v, store, pinned);
    assert PinnedSlots(v) == set p | p in pinned :: v.pageSlot[p];
    forall s: nat | s < |v.frames| && s !in v.freeSlots && s !in v.evictable
      ensures s in PinnedSlots(v)
    {
      assert SlotOk(v, NO_HOLE, s);
      var p := v.frames[s].id;
      assert p in pinned && v.pageSlot[p] == s;
    }
    forall p | p in Pins(v)
      ensures var s := v.pageSlot[p]; s < |v.frames| && s !in v.freeSlots && s !in v.evictable
    {
      assert PageOk(v, NO_HOLE, p) && SlotOk(v, NO_HOLE, v.pageSlot[p]);
    }
  }

  /** A frame can be had exactly when fewer pages are pinned than there are frames. */
  lemma HasFrameIffUnpinned(v: PoolView, store: Store)
    requires PoolInv(v, store, NO_HOLE)
    ensures HasFrame(v) <==> |Pins(v)| < |v.frames|
  {
    hide Pins, PinnedSlots;
    PinnedSlotsSize(v, store);
    var all := Range(0, |v.frames|);
    if HasFrame(v) {
      var s := if v.freeSlots != [] then v.freeSlots[0] else v.evictable[0];
      assert s in v.freeSlots || s in v.evictable;
      assert InRange(v, s);
      SubsetSize(PinnedSlots(v), all - {s});
    } else {
      assert PinnedSlots(v) == all;
    }
  }

  lemma {:induction false} SlotsOfPages(v: PoolView, store: Store, pages: set<PageId>)
    requires PoolInv(v, store, NO_HOLE) && pages <= v.pageSlot.Keys
    ensures |set p | p in pages :: v.pageSlot[p]| == |pages|
    decreases pages
  {
    var slots := set p | p in pages :: v.pageSlot[p];
    if pages == {} {
      assert slots == {};
    } else {
      var p :| p in pages;
      SlotsOfPages(v, store, pages - {p});
      var rest := set q | q in pages - {p} :: v.pageSlot[q];
      assert v.pageSlot[p] !in rest by {
        forall q | q in pages - {p}
          ensures v.pageSlot[q] != v.pageSlot[p]
        {
          assert PageOk(v, NO_HOLE, q) && PageOk(v, NO_HOLE, p);
        }
      }
      assert slots == rest + {v.pageSlot[p]};
    }
  }

  // ---------- what clients must keep to, and what happens if they do not ----------

  /** A resident page the store does not have breaks the pool. */
  lemma StrangerBreaksPool(v: PoolView, store: Store, p: PageId, hole: int)
    requires p in v.pageSlot && p !in store
    ensures !PoolInv(v, store, hole)
  {
    assert !SyncOk(v, store, p);
  }

  /** A page may be given back to the allocator exactly when it is not resident. */
  lemma FreedPageMustNotBeResident(v: PoolView, store: Store, p: PageId)
    requires PoolInv(v, store, NO_HOLE) && p in store
    ensures PoolInv(v, store - {p}, NO_HOLE) <==> p !in v.pageSlot
  {
  }

  /** Bytes that look like a free page are the only ones a pinned frame must not get. */
  lemma EditedBytesMustNotLookFree(v: PoolView, store: Store, v': PoolView, p: PageId, data: Page)
    requires PoolInv(v, store, NO_HOLE) && p in Pins(v)
    requires v' == v.(frames := v.frames[v.pageSlot[p] := FrameOf(v, p).(data := data)])
    ensures PoolInv(v', store, NO_HOLE) <==> Kind(data) != FREE_PAGE_KIND
  {
    hide Structured;
    if Kind(data) == FREE_PAGE_KIND {
      assert !SyncOk(v', store, p);
    } else {
      EditFrame(v, store, v', p, data);
    }
  }

  /** The last unpin keeps the pool in order exactly when it reports what the disk does not have. */
  lemma LastUnpinMustReport(v: PoolView, store: Store, v': PoolView, p: PageId, isDirty: bool)
    requires PoolInv(v, store, NO_HOLE) && Holds(v, p) && FrameOf(v, p).pinCount > 0
    requires var f := FrameOf(v, p);
             v' == v.(frames := v.frames[v.pageSlot[p] := f.(pinCount := f.pinCount - 1, dirty := f.dirty || isDirty)],
                      evictable := v'.evictable)
    requires v'.evictable == if FrameOf(v, p).pinCount == 1 then LRU.Apply(v.evictable, LRU.Unpinned(v.pageSlot[p])) else v.evictable
    ensures PoolInv(v', store, NO_HOLE) <==> FrameOf(v, p).pinCount > 1 || isDirty || p !in Unreported(v, store)
  {
    hide Structured;
    if FrameOf(v, p).pinCount > 1 || isDirty || p !in Unreported(v, store) {
      DropPin(v, store, v', p, isDirty);
    } else {
      assert !SyncOk(v', store, p);
    }
  }

  /** Evicting a frame that is not marked dirty loses its bytes exactly when the disk has others. */
  lemma CleanEvictionLosesUnreportedBytes(v: PoolView, store: Store, v': PoolView, p: PageId)
    requires p in store && Holds(v, p) && v' == v.(pageSlot := v.pageSlot - {p}, evictable := v'.evictable)
    ensures Logical(v', store) == Logical(v, store) <==> FrameOf(v, p).data == store[p]
  {
    assert Logical(v', store)[p] == store[p] && Logical(v, store)[p] == FrameOf(v, p).data;
    forall q | q in store && q != p
      ensures Logical(v', store)[q] == Logical(v, store)[q]
    {
    }
  }
}

/**
 The buffer pool: frames with pins and dirty flags over the page allocator.
 Clients see a plain page store, Logical(), and a pin count per page.
 */
module Buffer {
  import opened Bytes
  import opened Core
  import opened Disk
  import opened PoolModel
  import LRU

  class Frame {
    var id: PageId
    const data: array<byte>
    var pinCount: nat
    var dirty: bool

    constructor ()
      ensures id == INVALID_PAGE_ID && pinCount == 0 && !dirty
      ensures fresh(data) && data.Length == PAGE_SIZE && data[..] == Zeros(PAGE_SIZE)
    {
      id, pinCount, dirty := INVALID_PAGE_ID, 0, false;
      data := new byte[PAGE_SIZE](_ => 0);
      new;
      assert data[..] == Zeros(PAGE_SIZE);
    }

    ghost function View(): FrameView
      requires data.Length == PAGE_SIZE
      reads this, data
    {
      FrameView(id, data[..], pinCount, dirty)
    }

    method Reset()
      requires data.Length == PAGE_SIZE
      modifies this, data
      ensures id == INVALID_PAGE_ID && pinCount == 0 && !dirty && data[..] == Zeros(PAGE_SIZE)
    {
      id, pinCount, dirty := INVALID_PAGE_ID, 0, false;
      CopyInto(data, 0, Zeros(PAGE_SIZE));
    }

    method Pin()
      modifies this`pinCount
      ensures pinCount == old(pinCount) + 1
    {
      pinCount := pinCount + 1;
    }

    method Unpin() returns (st: Status)
      modifies this`pinCount
      ensures st == if old(pinCount) == 0 then InvalidArgument else Ok
      ensures pinCount == if old(pinCount) == 0 then 0 else old(pinCount) - 1
    {
      if pinCount == 0 {
        return InvalidArgument;
      }
      pinCount := pinCount - 1;
      return Ok;
    }
  }

  datatype AvailableSlot = AvailableSlot(slotId: nat, evicted: bool, evictedId: PageId)

  class BufferPoolManager {
    const disk: DiskManager
    const frames: seq<Frame>
    const lru: LRU.LRUReplacer
    var freeSlots: seq<nat>
    var pageSlot: map<PageId, nat>

    /** The pool's own objects, without the disk below it. */
    ghost function Local(): set<object> {
      {this, lru}
      + (set i | 0 <= i < |frames| :: frames[i])
      + (set i | 0 <= i < |frames| :: frames[i].data)
    }

    ghost function Footprint(): set<object> {
      Local() + {disk, disk.file}
    }

    /** The frames are separate objects with separate page buffers. */
    ghost predicate Separate() {
      && lru.capacity == |frames|
      && (forall i | 0 <= i < |frames| :: frames[i].data.Length == PAGE_SIZE)
      && (forall i, j | 0 <= i < j < |frames| :: frames[i] != frames[j] && frames[i].data != frames[j].data)
    }

    ghost function View(): (v: PoolView)
      requires Separate()
      reads Local()
      ensures |v.frames| == |frames|
    {
      PoolView(seq(|frames|, i requires 0 <= i < |frames| reads Local() => frames[i].View()),
               freeSlots, pageSlot, lru.list)
    }

    /** Consistent, apart from the slot in transit. */
    ghost predicate Consistent(hole: int)
      reads disk, disk.file, Footprint()
    {
      Separate() && lru.Valid() && disk.Valid() && PoolInv(View(), disk.Store(), hole)
    }

    ghost predicate Valid()
      reads disk, disk.file, Footprint()
    {
      Consistent(NO_HOLE)
    }

    /** The page store clients see. */
    ghost function Pages(): Store
      requires Valid()
      reads disk, disk.file, Footprint()
    {
      Logical(View(), disk.Store())
    }

    ghost function PinCounts(): map<PageId, nat>
      requires Valid()
      reads disk, disk.file, Footprint()
    {
      Pins(View())
    }

    /** Pages changed in their frame with no unpin saying so yet. */
    ghost function Pending(): set<PageId>
      requires Valid()
      reads disk, disk.file, Footprint()
    {
      Unreported(View(), disk.Store())
    }

    lemma InFootprint(s: nat)
      ensures {this, lru, disk, disk.file} <= Footprint()
      ensures s < |frames| ==> {frames[s]} <= Footprint() && {frames[s].data} <= Footprint()
      ensures {this, lru} <= Local() <= Footprint() && disk !in Local()
      ensures s < |frames| ==> {frames[s]} <= Local() && {frames[s].data} <= Local()
    {
    }

    /** Objects of different classes are different objects. */
    lemma Apart(s: nat)
      requires s < |frames|
      ensures lru as object != disk.file && this as object != disk.file && disk as object != disk.file
      ensures frames[s] as object != disk.file && frames[s].data as object != disk.file
      ensures frames[s] as object != disk && frames[s].data as object != disk
    {
    }

    lemma ViewOf(s: nat)
      requires Separate()
      ensures View().freeSlots == freeSlots && View().pageSlot == pageSlot && View().evictable == lru.list
      ensures s < |frames| ==> View().frames[s] == frames[s].View()
    {
    }

    /** Only the frame in slot s, and the pool's own fields, moved since the old state. */
    twostate lemma OneFrameChanged(s: nat)
      requires Separate() && s < |frames|
      requires forall i | 0 <= i < |frames| && i != s :: unchanged(frames[i]) && unchanged(frames[i].data)
      ensures View() == PoolView(old(View()).frames[s := frames[s].View()], freeSlots, pageSlot, lru.list)
      ensures old(View()).freeSlots == old(freeSlots) && old(View()).pageSlot == old(pageSlot) && old(View()).evictable == old(lru.list)
      ensures old(View()).frames[s] == old(frames[s].View())
    {
    }

    twostate lemma NoFrameChanged()
      requires Separate()
      requires forall i | 0 <= i < |frames| :: unchanged(frames[i]) && unchanged(frames[i].data)
      ensures View() == PoolView(old(View()).frames, freeSlots, pageSlot, lru.list)
      ensures old(View()).freeSlots == old(freeSlots) && old(View()).pageSlot == old(pageSlot) && old(View()).evictable == old(lru.list)
    {
    }

    constructor (poolSize: nat, disk: DiskManager)
      requires disk.Valid()
      ensures this.disk == disk && |frames| == poolSize
      ensures Valid() && fresh(Footprint() - {disk, disk.file}) && fresh(Local())
      ensures Pages() == disk.Store() && PinCounts() == map[] && Pending() == {}
      ensures freeSlots == seq(poolSize, i => i) && pageSlot == map[] && lru.list == []
    {
      var fs: seq<Frame> := [];
      for i := 0 to poolSize
        invariant |fs| == i
        invariant forall k | 0 <= k < i ::
                    && fresh(fs[k]) && fresh(fs[k].data) && fs[k].data.Length == PAGE_SIZE
                    && fs[k].id == INVALID_PAGE_ID && fs[k].pinCount == 0
        invariant forall j, k | 0 <= j < k < i :: fs[j] != fs[k] && fs[j].data != fs[k].data
      {
        var f := new Frame();
        fs := fs + [f];
      }
      this.disk := disk;
      frames := fs;
      freeSlots := seq(poolSize, i => i);
      pageSlot := map[];
      lru := new LRU.LRUReplacer(poolSize);
      new;
      EmptyPool(View(), disk.Store());
    }

    method GetAvailableSlot() returns (r: Result<AvailableSlot>)
      requires Valid()
      modifies this, lru, disk.file, set i | 0 <= i < |frames| :: frames[i]
      ensures old(disk.file.faults) <= disk.file.faults <= old(disk.file.faults) + 1
      ensures Separate() && disk.Valid()
      ensures SameToClients(old(View()), old(disk.Store()), View(), disk.Store())
      ensures r.Success? <==> old(HasFrame(View())) && disk.file.faults == old(disk.file.faults)
      ensures r.Success? ==>
                && var a := r.value;
                && a.slotId < |frames| && Consistent(a.slotId)
                && frames[a.slotId].id == a.evictedId
                && (if a.evicted then InTransit(a) else FreeSlot(View(), a.slotId))
                && pageSlot.Keys <= old(pageSlot.Keys)
      ensures r.Failure? ==> Valid() && r.status == if old(HasFrame(View())) then IOError else Internal
      ensures !old(HasFrame(View())) ==> disk.file.faults == old(disk.file.faults)
      ensures r.Success? ==>
                && (r.value.evicted <==> old(freeSlots) == []) && r.value.slotId == SlotTaken(old(View()))
                && View() == Taking(old(View())) && disk.Store() == StoreTaking(old(View()), old(disk.Store()))
                && (r.value.evicted ==> Evicts(old(View())) && r.value.evictedId == old(View()).frames[r.value.slotId].id)
      ensures r.Failure? ==>
                && disk.Store() == old(disk.Store())
                && PutBack(old(View()), old(disk.Store()), View(), disk.Store())
                && if old(lru.list) == [] then View() == old(View())
                   else Evicts(old(View())) && View() == old(View()).(evictable := old(lru.list)[1..] + [old(lru.list)[0]])
    {
      hide PoolInv, Logical, Pins, Unreported, DiskInv, Contents, View, LRU.LRUReplacer.Valid, Separate;
      ghost var v, store := View(), disk.Store();
      ViewOf(0);
      if freeSlots != [] {
        var s := freeSlots[|freeSlots| - 1];
        freeSlots := freeSlots[..|freeSlots| - 1];
        NoFrameChanged();
        TakeFreeSlot(v, store, View(), s);
        ViewOf(s);
        return Success(AvailableSlot(s, false, INVALID_PAGE_ID));
      }
      var victim := lru.GetVictim();
      if victim.Failure? {
        NoFrameChanged();
        return Failure(Internal);
      }
      NoFrameChanged();
      r := EvictVictim(victim.value, v);
    }

    /** `v` is the pool just before its victim s left the replacer's list. */
    method EvictVictim(s: nat, ghost v: PoolView) returns (r: Result<AvailableSlot>)
      requires Separate() && lru.Valid() && disk.Valid()
      requires v.evictable != [] && s == v.evictable[0] && View() == v.(evictable := v.evictable[1..])
      requires PoolInv(v, disk.Store(), NO_HOLE)
      modifies this, lru, disk.file, set i | 0 <= i < |frames| :: frames[i]
      ensures old(disk.file.faults) <= disk.file.faults <= old(disk.file.faults) + 1
      ensures Separate() && disk.Valid()
      ensures SameToClients(v, old(disk.Store()), View(), disk.Store())
      ensures r.Success? <==> disk.file.faults == old(disk.file.faults)
      ensures r.Success? ==> r.value.slotId == s && r.value.evicted && s < |frames| && Consistent(s) && InTransit(r.value)
      ensures r.Success? ==> pageSlot == old(pageSlot) - {r.value.evictedId}
      ensures r.Failure? ==> Valid() && r.status == IOError
      ensures s < |v.frames|
      ensures r.Success? ==>
                && r.value.evictedId == v.frames[s].id
                && View() == v.(frames := v.frames[s := v.frames[s].(dirty := false)], pageSlot := v.pageSlot - {v.frames[s].id},
                                evictable := v.evictable[1..])
                && disk.Store() == if v.frames[s].dirty then old(disk.Store())[v.frames[s].id := v.frames[s].data] else old(disk.Store())
      ensures r.Failure? ==> View() == v.(evictable := v.evictable[1..] + [s]) && disk.Store() == old(disk.Store())
    {
      hide PoolInv, Logical, Pins, Unreported, DiskInv, Contents, View, LRU.LRUReplacer.Valid;
      ghost var store := disk.Store();
      VictimFacts(v, store);
      ViewOf(s);
      var p := frames[s].id;
      if frames[s].dirty {
        var st := disk.WritePage(p, frames[s].data[..]);
        if !st.Ok? {
          var st' := lru.Unpin(s);
          NoFrameChanged();
          RotateVictim(v, store, View());
          return Failure(st);
        }
        frames[s].dirty := false;
      }
      OneFrameChanged(s);
      ghost var clean := View().(evictable := v.evictable);
      if v.frames[s].dirty {
        WriteBack(v, store, clean, disk.Store(), p);
      } else {
        assert clean == v;
      }
      pageSlot := pageSlot - {p};
      OneFrameChanged(s);
      EvictOldest(clean, disk.Store(), View());
      return Success(AvailableSlot(s, true, p));
    }

    /** An evicted page whose slot is in transit: its bytes are on disk. */
    ghost predicate InTransit(a: AvailableSlot)
      requires Separate() && disk.Valid() && a.slotId < |frames|
      reads disk, disk.file, Footprint()
    {
      var f := frames[a.slotId].View();
      && f.id == a.evictedId && f.pinCount == 0 && !f.dirty
      && f.id != INVALID_PAGE_ID && f.id !in pageSlot && f.id in disk.Store() && disk.Store()[f.id] == f.data
      && Kind(f.data) != FREE_PAGE_KIND
    }

    /** The pool with the slot given back. */
    static ghost function Returned(v: PoolView, a: AvailableSlot): PoolView {
      if a.evicted then v.(pageSlot := v.pageSlot[a.evictedId := a.slotId], evictable := v.evictable + [a.slotId])
      else v.(freeSlots := v.freeSlots + [a.slotId])
    }

    static lemma TakenInVain(v: PoolView, store: Store, a: AvailableSlot)
      requires PoolInv(v, store, NO_HOLE) && HasFrame(v)
      requires a.slotId == SlotTaken(v) && (a.evicted <==> v.freeSlots == [])
      requires a.evicted ==> Evicts(v) && a.evictedId == v.frames[a.slotId].id
      ensures PutBack(v, store, Returned(Taking(v), a), StoreTaking(v, store))
    {
      if a.evicted {
        VictimFacts(v, store);
      } else {
        assert v.freeSlots[..|v.freeSlots| - 1] + [a.slotId] == v.freeSlots;
      }
    }

    /** Give a slot back, undoing an eviction if there was one. */
    method RestoreAvailableSlot(a: AvailableSlot) returns (st: Status)
      requires Separate() && lru.Valid() && a.slotId < |frames| && frames[a.slotId].id == a.evictedId
      modifies this, lru
      ensures Separate() && lru.Valid() && disk.file.faults == old(disk.file.faults)
      ensures st.Ok?
      ensures old(disk.Valid() && Consistent(a.slotId) && (if a.evicted then InTransit(a) else FreeSlot(View(), a.slotId))) ==>
                && Valid() && SameToClients(old(View()), old(disk.Store()), View(), disk.Store())
                && View() == Returned(old(View()), a)
    {
      hide PoolInv, Logical, Pins, Unreported, DiskInv, Contents, View, LRU.LRUReplacer.Valid;
      ghost var v := View();
      if !a.evicted {
        freeSlots := freeSlots + [a.slotId];
        NoFrameChanged();
        if old(disk.Valid() && Consistent(a.slotId) && FreeSlot(View(), a.slotId)) {
          ReturnFreeSlot(v, disk.Store(), View(), a.slotId);
        }
        return Ok;
      }
      pageSlot := pageSlot[a.evictedId := a.slotId];
      st := lru.Unpin(a.slotId);
      if old(disk.Valid() && Consistent(a.slotId) && InTransit(a)) {
        HoleNotEvictable(v, disk.Store(), a.slotId);
        var f := frames[a.slotId].View();
        OneFrameChanged(a.slotId);
        FillHole(v, disk.Store(), View(), disk.Store(), a.slotId, f);
        AbsentSeenOnDisk(v, disk.Store(), a.evictedId);
        assert disk.Store()[f.id := f.data] == disk.Store();
      }
    }

    /** The frame the pool holds for p. */
    ghost predicate IsFrameOf(f: Frame, p: PageId)
      reads this, f
    {
      && {f} <= Local() && {f.data} <= Local() && f.data.Length == PAGE_SIZE
      && p in pageSlot && pageSlot[p] < |frames| && f == frames[pageSlot[p]] && f.id == p
    }

    ghost predicate SameForClients(pages: Store, pins: map<PageId, nat>, pending: set<PageId>)
      reads disk, disk.file, Footprint()
    {
      Valid() && Pages() == pages && PinCounts() == pins && Pending() == pending
    }

    /** Give the frame in slot s to page p, pinned once and clean. */
    method Occupy(s: nat, p: PageId, data: Page)
      requires Separate() && s < |frames|
      modifies this`pageSlot, frames[s], frames[s].data
      ensures pageSlot == old(pageSlot)[p := s] && frames[s].View() == FrameView(p, data, 1, false)
      ensures View() == PoolView(old(View()).frames[s := FrameView(p, data, 1, false)], freeSlots, pageSlot, lru.list)
      ensures old(View()).freeSlots == old(freeSlots) && old(View()).pageSlot == old(pageSlot) && old(View()).evictable == old(lru.list)
    {
      frames[s].Reset();
      CopyInto(frames[s].data, 0, data);
      assert frames[s].data[..] == data;
      frames[s].id := p;
      frames[s].Pin();
      pageSlot := pageSlot[p := s];
      OneFrameChanged(s);
    }

    method NewPage() returns (r: Result<Frame>)
      requires Valid()
      modifies Footprint()
      ensures old(disk.file.faults) <= disk.file.faults <= old(disk.file.faults) + 2
      ensures r.Success? ==> disk.file.faults == old(disk.file.faults)
      ensures r.Success? <==> HadFrame() && old(disk.CanAllocate())
      ensures r.Success? ==>
                && var p := r.value.id;
                && p !in old(Pages()) && p != 0 && p != INVALID_PAGE_ID && IsFrameOf(r.value, p)
                && SameForClients(old(Pages())[p := Zeros(PAGE_SIZE)], old(PinCounts())[p := 1], old(Pending()))
                && r.value.data[..] == Zeros(PAGE_SIZE)
      ensures r.Failure? && disk.file.faults <= old(disk.file.faults) + 1 ==>
                && SameForClients(old(Pages()), old(PinCounts()), old(Pending()))
                && PutBack(old(View()), old(disk.Store()), View(), disk.Store())
      ensures r.Success? ==>
                && View() == Filled(Taking(old(View())), SlotTaken(old(View())), FrameView(r.value.id, Zeros(PAGE_SIZE), 1, false))
                && disk.Store() == StoreTaking(old(View()), old(disk.Store()))[r.value.id := Zeros(PAGE_SIZE)]
      ensures r.Failure? ==> r.status == if disk.file.faults == old(disk.file.faults) then Internal else IOError
    {
      hide PoolInv, Logical, Pins, Unreported, DiskInv, Contents, View, LRU.LRUReplacer.Valid, Separate,
           HasFrame, Taking, StoreTaking, PutBack, Filled, Returned, SlotTaken, Evicts;
      ghost var v, store := View(), disk.Store();
      ViewOf(0);
      var slot := GetAvailableSlot();
      if slot.Failure? {
        return Failure(slot.status);
      }
      TakenInVain(v, store, slot.value);
      r := Allot(slot.value);
    }

    /** Second half of newPage: the slot is in transit. */
    method Allot(a: AvailableSlot) returns (r: Result<Frame>)
      requires a.slotId < |frames| && Consistent(a.slotId) && frames[a.slotId].id == a.evictedId
      requires if a.evicted then InTransit(a) else FreeSlot(View(), a.slotId)
      modifies Footprint()
      ensures old(disk.file.faults) <= disk.file.faults <= old(disk.file.faults) + 2
      ensures r.Success? ==> disk.file.faults == old(disk.file.faults)
      ensures r.Success? <==> old(disk.CanAllocate()) && disk.file.faults == old(disk.file.faults)
      ensures r.Success? ==>
                && var p := r.value.id;
                && p !in old(Logical(View(), disk.Store())) && p != 0 && p != INVALID_PAGE_ID && IsFrameOf(r.value, p)
                && SameForClients(old(Logical(View(), disk.Store()))[p := Zeros(PAGE_SIZE)],
                                  old(Pins(View()))[p := 1], old(Unreported(View(), disk.Store())))
                && r.value.data[..] == Zeros(PAGE_SIZE)
      ensures r.Failure? && disk.file.faults <= old(disk.file.faults) + 1 ==>
                && SameForClients(old(Logical(View(), disk.Store())), old(Pins(View())), old(Unreported(View(), disk.Store())))
                && disk.Store() == old(disk.Store()) && View() == Returned(old(View()), a)
      ensures r.Success? ==>
                && View() == Filled(old(View()), a.slotId, FrameView(r.value.id, Zeros(PAGE_SIZE), 1, false))
                && disk.Store() == old(disk.Store())[r.value.id := Zeros(PAGE_SIZE)]
      ensures r.Failure? ==> r.status == if disk.file.faults == old(disk.file.faults) then Internal else IOError
    {
      hide PoolInv, Logical, Pins, Unreported, DiskInv, Contents, View, LRU.LRUReplacer.Valid, Separate, Footprint, Local;
      var s := a.slotId;
      InFootprint(s);
      ghost var v, store := View(), disk.Store();
      SameKeys(v, store);
      var newPage := disk.AllocatePage();
      NoFrameChanged();
      if newPage.Failure? {
        var st := RestoreAvailableSlot(a);
        return Failure(newPage.status);
      }
      var p := newPage.value;
      Occupy(s, p, Zeros(PAGE_SIZE));
      if p in v.pageSlot {
        ResidentInStore(v, store, s, p);
      }
      FillHole(v, store, View(), disk.Store(), s, frames[s].View());
      return Success(frames[s]);
    }

    /** A frame could be had, and no I/O failed since the old state. */
    twostate predicate HadFrame()
      requires Separate()
      reads disk, disk.file, Local()
    {
      old(HasFrame(View())) && disk.file.faults == old(disk.file.faults)
    }

    /**
     Pin a page, loading it if needed.  Free pages are not rejected: fetching
     one that can be read puts a page into the pool that is not in the store.
     */
    method FetchPage(pageId: PageId) returns (r: Result<Frame>)
      requires Valid()
      modifies Local(), disk.file
      ensures old(disk.file.faults) <= disk.file.faults <= old(disk.file.faults) + 1
      ensures r.Success? <==>
                (pageId in old(Pages()) || pageId in old(disk.freeList)) && (pageId in old(pageSlot) || HadFrame())
      ensures r.Success? ==> disk.file.faults == old(disk.file.faults)
      ensures r.Success? && pageId in old(disk.freeList) ==> !Valid()
      ensures r.Success? && pageId !in old(disk.freeList) ==>
                && IsFrameOf(r.value, pageId)
                && SameForClients(old(Pages()), old(PinCounts())[pageId := 1 + old(PinCount(pageId))], old(Pending()))
                && r.value.data[..] == Pages()[pageId]
      ensures !old(HasFrame(View())) ==> disk.file.faults == old(disk.file.faults)
      ensures r.Failure? ==>
                && SameForClients(old(Pages()), old(PinCounts()), old(Pending()))
                && r.status == if !old(HasFrame(View())) then Internal
                               else if disk.file.faults > old(disk.file.faults) then IOError else InvalidArgument
      ensures disk.Valid() && Separate() && AtMostOneWritten(old(disk.Store()), disk.Store(), old(Pages()))
      ensures pageId in old(pageSlot) ==> disk.Store() == old(disk.Store())
      ensures r.Failure? ==> PutBack(old(View()), old(disk.Store()), View(), disk.Store())
      ensures r.Success? && pageId in old(pageSlot) ==> View() == MorePinned(old(View()), pageId) && disk.Store() == old(disk.Store())
      ensures r.Success? && pageId !in old(pageSlot) ==>
                && pageId in disk.file.pages
                && View() == Filled(Taking(old(View())), SlotTaken(old(View())), FrameView(pageId, disk.file.pages[pageId], 1, false))
                && disk.Store() == StoreTaking(old(View()), old(disk.Store()))
    {
      hide PoolInv, Logical, Pins, Unreported, DiskInv, Contents, View, LRU.LRUReplacer.Valid, Separate,
           HasFrame, Taking, StoreTaking, PutBack, Filled, MorePinned, SlotTaken, Evicts, IsFrameOf;
      InFootprint(0);
      if pageId in pageSlot {
        ResidentIsAllocated(pageId);
        r := PinLoaded(pageId);
      } else {
        r := FetchAbsent(pageId);
      }
    }

    /** The branch of a page that is not resident. */
    method FetchAbsent(pageId: PageId) returns (r: Result<Frame>)
      requires Valid() && pageId !in pageSlot
      modifies Local(), disk.file
      ensures old(disk.file.faults) <= disk.file.faults <= old(disk.file.faults) + 1
      ensures r.Success? <==> (pageId in old(Pages()) || pageId in old(disk.freeList)) && HadFrame()
      ensures r.Success? ==> disk.file.faults == old(disk.file.faults)
      ensures r.Success? && pageId in old(disk.freeList) ==> !Valid()
      ensures r.Success? && pageId !in old(disk.freeList) ==>
                && IsFrameOf(r.value, pageId)
                && SameForClients(old(Pages()), old(PinCounts())[pageId := 1 + old(PinCount(pageId))], old(Pending()))
                && r.value.data[..] == Pages()[pageId]
      ensures !old(HasFrame(View())) ==> disk.file.faults == old(disk.file.faults)
      ensures r.Failure? ==>
                && SameForClients(old(Pages()), old(PinCounts()), old(Pending()))
                && r.status == if !old(HasFrame(View())) then Internal
                               else if disk.file.faults > old(disk.file.faults) then IOError else InvalidArgument
      ensures disk.Valid() && Separate() && AtMostOneWritten(old(disk.Store()), disk.Store(), old(Pages()))
      ensures r.Failure? ==> PutBack(old(View()), old(disk.Store()), View(), disk.Store())
      ensures r.Success? ==>
                && pageId in disk.file.pages
                && View() == Filled(Taking(old(View())), SlotTaken(old(View())), FrameView(pageId, disk.file.pages[pageId], 1, false))
                && disk.Store() == StoreTaking(old(View()), old(disk.Store()))
    {
      hide PoolInv, Logical, Pins, Unreported, DiskInv, Contents, View, LRU.LRUReplacer.Valid, Separate,
           HasFrame, Taking, StoreTaking, PutBack, Filled, Returned, SlotTaken, Evicts, InTransit, FreeSlot, IsFrameOf, AtMostOneWritten;
      ghost var v, store := View(), disk.Store();
      VictimWritten(v, store);
      ViewOf(0);
      NotPinned(v, pageId);
      var slot := GetAvailableSlot();
      if slot.Failure? {
        return Failure(slot.status);
      }
      TakenInVain(v, store, slot.value);
      r := Load(pageId, slot.value);
    }

    static ghost function MorePinned(v: PoolView, p: PageId): PoolView {
      if Holds(v, p)
      then WithFrame(v, p, FrameOf(v, p).(pinCount := FrameOf(v, p).pinCount + 1)).(evictable := LRU.Without(v.evictable, v.pageSlot[p]))
      else v
    }

    method PinLoaded(pageId: PageId) returns (r: Result<Frame>)
      requires Valid() && pageId in pageSlot
      modifies Local()
      ensures pageId in old(Pages()) && r.Success? && IsFrameOf(r.value, pageId)
      ensures SameForClients(old(Pages()), old(PinCounts())[pageId := 1 + old(PinCount(pageId))], old(Pending()))
      ensures r.value.data[..] == Pages()[pageId]
      ensures View() == MorePinned(old(View()), pageId)
    {
      hide PoolInv, Logical, Pins, Unreported, DiskInv, Contents, View, LRU.LRUReplacer.Valid, Footprint, Local, LRU.Without;
      InFootprint(pageSlot[pageId]);
      ghost var v, store := View(), disk.Store();
      ViewOf(0);
      ResidentInStore(v, store, NO_HOLE, pageId);
      ResidentFacts(v, store, pageId);
      var s := pageSlot[pageId];
      frames[s].Pin();
      var st := lru.Pin(s);
      OneFrameChanged(s);
      AddPin(v, store, View(), pageId);
      return if st.Ok? then Success(frames[s]) else Failure(st);
    }

    method Load(pageId: PageId, a: AvailableSlot) returns (r: Result<Frame>)
      requires a.slotId < |frames| && Consistent(a.slotId) && frames[a.slotId].id == a.evictedId
      requires if a.evicted then InTransit(a) else FreeSlot(View(), a.slotId)
      requires pageId !in pageSlot
      modifies Local(), disk.file
      ensures old(disk.file.faults) <= disk.file.faults <= old(disk.file.faults) + 1
      ensures r.Success? <==>
                && (pageId in old(Logical(View(), disk.Store())) || pageId in old(disk.freeList))
                && disk.file.faults == old(disk.file.faults)
      ensures r.Success? && pageId in old(disk.freeList) ==> !Valid()
      ensures r.Success? && pageId !in old(disk.freeList) ==>
                && IsFrameOf(r.value, pageId)
                && SameForClients(old(Logical(View(), disk.Store())),
                                  old(Pins(View()))[pageId := 1], old(Unreported(View(), disk.Store())))
                && r.value.data[..] == Pages()[pageId]
      ensures r.Failure? ==>
                && SameForClients(old(Logical(View(), disk.Store())), old(Pins(View())), old(Unreported(View(), disk.Store())))
                && r.status == if disk.file.faults > old(disk.file.faults) then IOError else InvalidArgument
      ensures disk.Valid() && Separate() && disk.Store() == old(disk.Store())
      ensures r.Failure? ==> View() == Returned(old(View()), a)
      ensures r.Success? ==>
                && pageId in disk.file.pages
                && View() == Filled(old(View()), a.slotId, FrameView(pageId, disk.file.pages[pageId], 1, false))
    {
      hide PoolInv, Logical, Pins, Unreported, DiskInv, Contents, View, LRU.LRUReplacer.Valid, Separate, Footprint, Local;
      InFootprint(a.slotId);
      ghost var v, store := View(), disk.Store();
      SameKeys(v, store);
      ViewOf(0);
      ContentsFacts(disk.magic, disk.State());
      var data := disk.ReadPage(pageId);
      NoFrameChanged();
      if data.Failure? {
        var st := RestoreAvailableSlot(a);
        return Failure(data.status);
      }
      var s := a.slotId;
      Occupy(s, pageId, data.value);
      if pageId in disk.freeList {
        StrangerBreaksPool(View(), store, pageId, NO_HOLE);
      } else {
        AbsentSeenOnDisk(v, store, pageId);
        ghost var f := frames[s].View();
        assert store[pageId := f.data] == store;
        FillHole(v, store, View(), store, s, f);
        ResidentFacts(View(), store, pageId);
        ViewOf(s);
      }
      return Success(frames[s]);
    }

    /** Dropping a pin this way leaves no change of the page unreported and unpinned. */
    ghost predicate Reports(pageId: PageId, isDirty: bool)
      requires Valid()
      reads disk, disk.file, Footprint()
    {
      PinCount(pageId) == 1 ==> isDirty || pageId !in Pending()
    }

    /** A page losing its last pin is the youngest evictable one. */
    static ghost function LessPinned(v: PoolView, p: PageId, isDirty: bool): PoolView {
      if Holds(v, p) && FrameOf(v, p).pinCount > 0
      then
        var f := FrameOf(v, p);
        var v' := WithFrame(v, p, f.(pinCount := f.pinCount - 1, dirty := f.dirty || isDirty));
        if f.pinCount == 1 && v.pageSlot[p] !in v.evictable then v'.(evictable := v.evictable + [v.pageSlot[p]]) else v'
      else v
    }

    /** Drop one pin.  A last pin that hides a change the disk does not have breaks the pool. */
    method UnpinPage(pageId: PageId, isDirty: bool) returns (st: Status)
      requires Valid()
      modifies Local()
      ensures disk.file.faults == old(disk.file.faults) && disk.Valid() && disk.Store() == old(disk.Store())
      ensures st == if pageId !in old(pageSlot) then NotFound else if old(PinCount(pageId)) == 0 then InvalidArgument else Ok
      ensures !st.Ok? ==> SameForClients(old(Pages()), old(PinCounts()), old(Pending()))
      ensures st.Ok? ==> (Valid() <==> old(Reports(pageId, isDirty)))
      ensures st.Ok? && old(Reports(pageId, isDirty)) ==>
                SameForClients(old(Pages()),
                               if old(PinCount(pageId)) == 1 then old(PinCounts()) - {pageId}
                               else old(PinCounts())[pageId := old(PinCount(pageId)) - 1],
                               if isDirty then old(Pending()) - {pageId} else old(Pending()))
      ensures Separate() && View() == if st.Ok? then LessPinned(old(View()), pageId, isDirty) else old(View())
    {
      hide PoolInv, Logical, Pins, Unreported, DiskInv, Contents, View, LRU.LRUReplacer.Valid, Footprint, Local;
      InFootprint(if pageId in pageSlot then pageSlot[pageId] else 0);
      ghost var v, store := View(), disk.Store();
      ViewOf(0);
      if pageId !in pageSlot {
        return NotFound;
      }
      ResidentInStore(v, store, NO_HOLE, pageId);
      ResidentFacts(v, store, pageId);
      var s := pageSlot[pageId];
      st := frames[s].Unpin();
      if !st.Ok? {
        OneFrameChanged(s);
        assert View().frames == v.frames;
        return;
      }
      if isDirty {
        frames[s].dirty := true;
      }
      if frames[s].pinCount == 0 {
        st := lru.Unpin(s);
      }
      OneFrameChanged(s);
      LastUnpinMustReport(v, store, View(), pageId, isDirty);
      if old(Reports(pageId, isDirty)) {
        DropPin(v, store, View(), pageId, isDirty);
      }
    }

    method SavePageToDisk(pageId: PageId) returns (st: Status)
      requires Valid()
      modifies disk.file, set i | 0 <= i < |frames| :: frames[i]
      ensures old(disk.file.faults) <= disk.file.faults <= old(disk.file.faults) + 1
      ensures SameForClients(old(Pages()), old(PinCounts()), old(Pending()))
      ensures st == if pageId !in pageSlot then NotFound
                    else if disk.file.faults == old(disk.file.faults) then Ok else IOError
      ensures st.Ok? ==> Holds(old(View()), pageId)
      ensures disk.Store() == if st.Ok? && FrameOf(old(View()), pageId).dirty
                              then old(disk.Store())[pageId := old(Pages())[pageId]] else old(disk.Store())
      ensures st.Ok? && pageId !in old(Pending()) ==> pageId in Pages() && disk.Store()[pageId] == Pages()[pageId]
      ensures View() == if st.Ok? then WithFrame(old(View()), pageId, FrameOf(old(View()), pageId).(dirty := false)) else old(View())
      ensures forall i | 0 <= i < |frames| ::
                frames[i].id == old(frames[i].id) && frames[i].dirty == (old(frames[i].dirty) && !(st.Ok? && i == pageSlot[pageId]))
    {
      hide PoolInv, Logical, Pins, Unreported, DiskInv, Contents, View, LRU.LRUReplacer.Valid;
      ghost var v, store := View(), disk.Store();
      ViewOf(0);
      if pageId !in pageSlot {
        return NotFound;
      }
      ResidentInStore(v, store, NO_HOLE, pageId);
      ResidentFacts(v, store, pageId);
      var s := pageSlot[pageId];
      ViewOf(s);
      if frames[s].dirty {
        st := disk.WritePage(pageId, frames[s].data[..]);
        if !st.Ok? {
          NoFrameChanged();
          return;
        }
        frames[s].dirty := false;
        OneFrameChanged(s);
        WriteBack(v, store, View(), disk.Store(), pageId);
      } else {
        NoFrameChanged();
        assert v.frames[s := v.frames[s].(dirty := false)] == v.frames;
      }
      return Ok;
    }

    /** One turn of the loop of saveAllPagesToDisk; `v` and `store` are the pool and the disk before the loop. */
    method SaveFrame(i: nat, ghost v: PoolView, ghost store: Store) returns (st: Status)
      requires Valid() && i < |frames| == |v.frames| && PoolInv(v, store, NO_HOLE)
      requires View() == SavedFrames(v, i) && disk.Store() == SavedStore(v, store, i)
      modifies disk.file, set i | 0 <= i < |frames| :: frames[i]
      ensures old(disk.file.faults) <= disk.file.faults <= old(disk.file.faults) + 1
      ensures SameForClients(old(Pages()), old(PinCounts()), old(Pending()))
      ensures st == if disk.file.faults == old(disk.file.faults) then Ok else IOError
      ensures View() == SavedFrames(v, if st.Ok? then i + 1 else i)
      ensures disk.Store() == SavedStore(v, store, if st.Ok? then i + 1 else i)
    {
      hide PoolInv, Logical, Pins, Unreported, DiskInv, Contents, View, LRU.LRUReplacer.Valid, SavedStore;
      ViewOf(i);
      ghost var v1, store1 := View(), disk.Store();
      if frames[i].id != INVALID_PAGE_ID {
        FrameIsResident(v1, store1, i);
        ResidentFacts(v1, store1, frames[i].id);
        st := SavePageToDisk(frames[i].id);
        if !st.Ok? {
          return;
        }
      }
      SaveStep(v, store, v1, store1, View(), disk.Store(), i);
      return Ok;
    }

    /** After a successful save with nothing unreported, the disk alone holds every page. */
    method SaveAllPagesToDisk() returns (st: Status)
      requires Valid()
      modifies disk.file, set i | 0 <= i < |frames| :: frames[i]
      ensures old(disk.file.faults) <= disk.file.faults <= old(disk.file.faults) + 1
      ensures SameForClients(old(Pages()), old(PinCounts()), old(Pending()))
      ensures st == if disk.file.faults == old(disk.file.faults) then Ok else IOError
      ensures st.Ok? && old(Pending()) == {} ==> disk.Store() == old(Pages())
      ensures exists k ::
                && 0 <= k <= |frames| && (st.Ok? ==> k == |frames|)
                && View() == SavedFrames(old(View()), k) && disk.Store() == SavedStore(old(View()), old(disk.Store()), k)
    {
      hide PoolInv, Logical, Pins, Unreported, DiskInv, Contents, View, LRU.LRUReplacer.Valid, SavedFrames, SavedStore;
      ghost var v, store := View(), disk.Store();
      SaveNothing(v, store);
      for i := 0 to |frames|
        invariant disk.file.faults == old(disk.file.faults)
        invariant SameForClients(old(Pages()), old(PinCounts()), old(Pending()))
        invariant View() == SavedFrames(v, i) && disk.Store() == SavedStore(v, store, i)
      {
        st := SaveFrame(i, v, store);
        if !st.Ok? {
          return;
        }
      }
      if Pending() == {} {
        SavedAll(v);
        CleanPoolIsDisk(View(), disk.Store());
      }
      return Ok;
    }

    /** Fewer pinned pages than frames: a frame can be had. */
    lemma FrameAvailable()
      requires Valid()
      ensures HasFrame(View()) <==> |PinCounts()| < |frames|
    {
      HasFrameIffUnpinned(View(), disk.Store());
    }

    lemma ValidParts()
      requires Valid()
      ensures Separate() && disk.Valid()
    {
    }

    lemma ResidentIsAllocated(pageId: PageId)
      requires Valid() && pageId in pageSlot
      ensures pageId in Pages() && pageId !in disk.freeList
    {
      assert SyncOk(View(), disk.Store(), pageId);
    }

    /** Unreported pages are pinned; pages of the store are not free. */
    lemma PendingArePinnedPages()
      requires Valid()
      ensures Pending() <= PinCounts().Keys
      ensures forall p | p in Pages() :: p !in disk.freeList && p != INVALID_PAGE_ID && p != 0
      ensures forall p | p in PinCounts() :: p in pageSlot && p in Pages() && PinCounts()[p] > 0
    {
    }

    /** Work that touches none of the pool's objects leaves the pool as it was. */
    twostate lemma Untouched()
      requires old(Valid())
      requires forall o | o in Footprint() && old(allocated(o)) :: unchanged(o)
      ensures Valid() && Pages() == old(Pages()) && PinCounts() == old(PinCounts()) && Pending() == old(Pending())
    {
      hide PoolInv, Logical, Pins, Unreported, DiskInv, Contents, View;
      forall i | 0 <= i < |frames|
        ensures unchanged(frames[i]) && unchanged(frames[i].data)
      {
        assert frames[i] in Footprint() && frames[i].data in Footprint();
      }
      assert lru in Footprint() && disk in Footprint() && disk.file in Footprint() && this in Footprint();
      NoFrameChanged();
      assert View() == old(View());
    }

    /** A client has edited the bytes of the frame of p, which it has pinned. */
    twostate lemma Edited(p: PageId)
      requires old(Valid()) && p in old(PinCounts()) && p in pageSlot && pageSlot[p] < |frames|
      requires Kind(frames[pageSlot[p]].data[..]) != FREE_PAGE_KIND
      requires forall o | o in Footprint() && old(allocated(o)) && o != frames[pageSlot[p]].data :: unchanged(o)
      ensures Valid() && Pages() == old(Pages())[p := frames[pageSlot[p]].data[..]]
      ensures PinCounts() == old(PinCounts()) && Pending() <= old(Pending()) + {p}
      ensures frames[pageSlot[p]].data[..] == old(frames[pageSlot[p]].data[..]) ==>
                Pages() == old(Pages()) && Pending() == old(Pending())
    {
      hide PoolInv, Logical, Pins, Unreported, DiskInv, Contents, View;
      ghost var s := pageSlot[p];
      forall i | 0 <= i < |frames| && i != s
        ensures unchanged(frames[i]) && unchanged(frames[i].data)
      {
        assert frames[i] in Footprint() && frames[i].data in Footprint();
      }
      assert frames[s] in Footprint() && lru in Footprint() && disk in Footprint() && disk.file in Footprint() && this in Footprint();
      OneFrameChanged(s);
      if frames[s].data[..] == old(frames[s].data[..]) {
        assert frames[s].View() == old(frames[s].View());
        assert View().frames == old(View()).frames;
        assert View() == old(View());
      }
      EditFrame(old(View()), disk.Store(), View(), p, frames[pageSlot[p]].data[..]);
    }

    ghost function PinCount(p: PageId): nat
      requires Valid()
      reads disk, disk.file, Footprint()
    {
      if p in PinCounts() then PinCounts()[p] else 0
    }
  }
}

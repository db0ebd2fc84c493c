/**
 The replacement policy.  The list the code edits is compared with a timestamp
 reading of the whole history of calls: a slot's age is the moment it last
 became evictable.
 */
module LRU {
  import opened Core
  import opened Finite

  datatype Event = Pinned(slot: nat) | Unpinned(slot: nat) | Evicted(slot: nat)

  function Without(list: seq<nat>, slot: nat): (r: seq<nat>)
    ensures forall x :: x in r <==> x in list && x != slot
    ensures slot !in list ==> r == list
    ensures |r| <= |list|
  {
    if list == [] then []
    else
      assert forall x :: x in list <==> x == list[0] || x in list[1..];
      assert list == [list[0]] + list[1..];
      if list[0] == slot then Without(list[1..], slot) else [list[0]] + Without(list[1..], slot)
  }

  function Apply(list: seq<nat>, e: Event): seq<nat> {
    match e
    case Pinned(s) => Without(list, s)
    case Unpinned(s) => if s in list then list else list + [s]
    case Evicted(s) => Without(list, s)
  }

  /** The list after a history of calls. */
  function ListAfter(h: seq<Event>): seq<nat> {
    if h == [] then [] else Apply(ListAfter(h[..|h| - 1]), h[|h| - 1])
  }

  /** When the slot last became evictable, if it still is. */
  function Since(h: seq<Event>, slot: nat): (t: Option<nat>)
    ensures t.Some? ==> t.value < |h| && h[t.value] == Unpinned(slot)
  {
    if h == [] then None
    else
      var n := |h| - 1;
      var before := Since(h[..n], slot);
      if h[n].slot != slot then before
      else if !h[n].Unpinned? then None
      else if before.Some? then before
      else Some(n)
  }

  /** s became evictable before t did, and both still are. */
  ghost predicate Older(h: seq<Event>, s: nat, t: nat) {
    Since(h, s).Some? && Since(h, t).Some? && Since(h, s).value < Since(h, t).value
  }

  ghost predicate OldestFirst(h: seq<Event>, list: seq<nat>) {
    forall i, j | 0 <= i < j < |list| :: Older(h, list[i], list[j])
  }

  lemma {:induction false} WithoutKeepsOrder(list: seq<nat>, slot: nat, i: nat, j: nat) returns (a: nat, b: nat)
    requires i < j < |Without(list, slot)|
    ensures a < b < |list|
    ensures list[a] == Without(list, slot)[i] && list[b] == Without(list, slot)[j]
  {
    if list[0] == slot {
      a, b := WithoutKeepsOrder(list[1..], slot, i, j);
      a, b := a + 1, b + 1;
    } else if i > 0 {
      a, b := WithoutKeepsOrder(list[1..], slot, i - 1, j - 1);
      a, b := a + 1, b + 1;
    } else {
      a := 0;
      var x := Without(list[1..], slot)[j - 1];
      assert x in list[1..];
      b :| 1 <= b < |list| && list[b] == x;
    }
  }

  /** The list is the evictable slots, oldest entry first, whatever the history. */
  lemma {:induction false} ListIsByAge(h: seq<Event>)
    ensures forall s :: s in ListAfter(h) <==> Since(h, s).Some?
    ensures OldestFirst(h, ListAfter(h))
    ensures Distinct(ListAfter(h))
  {
    if h == [] {
    } else {
      var n := |h| - 1;
      var h0, e := h[..n], h[n];
      ListIsByAge(h0);
      var list0, list := ListAfter(h0), ListAfter(h);
      assert list == Apply(list0, e);
      forall i, j | 0 <= i < j < |list|
        ensures Older(h, list[i], list[j])
      {
        if !e.Unpinned? {
          assert list[i] in list && list[j] in list;
          var a, b := WithoutKeepsOrder(list0, e.slot, i, j);
          assert Older(h0, list0[a], list0[b]);
        } else {
          assert list0[i] == list[i] && list0[i] in list0;
          if j < |list0| {
            assert Older(h0, list0[i], list0[j]);
          }
        }
      }
      assert forall i, j | 0 <= i < j < |list| :: Older(h, list[i], list[j]);
    }
  }

  /** The front of the list entered the evictable set before every other member. */
  lemma VictimIsOldest(h: seq<Event>, s: nat)
    requires ListAfter(h) != [] && s != ListAfter(h)[0] && Since(h, s).Some?
    ensures Since(h, ListAfter(h)[0]).Some?
    ensures Since(h, ListAfter(h)[0]).value < Since(h, s).value
  {
    ListIsByAge(h);
    var list := ListAfter(h);
    assert s in list;
    var k :| 0 <= k < |list| && list[k] == s;
    assert Older(h, list[0], list[k]);
  }

  /** Unpinning a slot that is already evictable does not change its age or the order. */
  lemma RepeatedUnpinKeepsAge(h: seq<Event>, s: nat)
    requires Since(h, s).Some?
    ensures Since(h + [Unpinned(s)], s) == Since(h, s)
    ensures ListAfter(h + [Unpinned(s)]) == ListAfter(h)
  {
  }

  /** An evicted slot that is put back is the newest of all. */
  lemma RestoredVictimIsNewest(h: seq<Event>, s: nat, other: nat)
    requires ListAfter(h) != [] && s == ListAfter(h)[0]
    requires other != s && Since(h, other).Some?
    ensures var h' := h + [Evicted(s), Unpinned(s)];
            && ListAfter(h') == ListAfter(h)[1..] + [s]
            && Since(h', other) == Since(h, other)
            && Since(h', s).Some? && Since(h', other).value < Since(h', s).value
  {
    var h1 := h + [Evicted(s)];
    var h' := h + [Evicted(s), Unpinned(s)];
    assert h1[..|h|] == h && h'[..|h1|] == h1;
    ListIsByAge(h);
    WithoutFront(ListAfter(h));
  }

  /** One more call: the list takes one step and stays duplicate-free. */
  lemma Extend(h: seq<Event>, e: Event)
    ensures ListAfter(h + [e]) == Apply(ListAfter(h), e)
    ensures Distinct(ListAfter(h + [e]))
  {
    assert (h + [e])[..|h|] == h;
    ListIsByAge(h + [e]);
  }

  lemma WithoutFront(list: seq<nat>)
    requires list != [] && Distinct(list)
    ensures Without(list, list[0]) == list[1..]
  {
  }

  class LRUReplacer {
    const capacity: nat
    var list: seq<nat>
    var keys: set<nat>
    ghost var history: seq<Event>

    ghost predicate Valid()
      reads this
    {
      && list == ListAfter(history)
      && Distinct(list)
      && (forall s :: s in keys <==> s in list)
      && (forall s | s in list :: s < capacity)
    }

    constructor (capacity: nat)
      ensures Valid() && this.capacity == capacity && list == []
    {
      this.capacity := capacity;
      list, keys, history := [], {}, [];
    }

    method Pin(slotId: nat) returns (st: Status)
      requires Valid()
      modifies this
      ensures Valid() && Distinct(list)
      ensures st == if slotId < capacity then Ok else InvalidArgument
      ensures st.Ok? ==> list == Without(old(list), slotId) && history == old(history) + [Pinned(slotId)]
      ensures !st.Ok? ==> unchanged(this)
    {
      hide ListAfter, Since, Without;
      if slotId >= capacity {
        return InvalidArgument;
      }
      if slotId in keys {
        list := Without(list, slotId);
        keys := keys - {slotId};
      }
      Extend(history, Pinned(slotId));
      history := history + [Pinned(slotId)];
      return Ok;
    }

    method Unpin(slotId: nat) returns (st: Status)
      requires Valid()
      modifies this
      ensures Valid() && Distinct(list)
      ensures st == if slotId < capacity then Ok else InvalidArgument
      ensures st.Ok? ==> list == Apply(old(list), Unpinned(slotId)) && history == old(history) + [Unpinned(slotId)]
      ensures !st.Ok? ==> unchanged(this)
    {
      hide ListAfter, Since, Without;
      if slotId >= capacity {
        return InvalidArgument;
      }
      if slotId !in keys {
        list := list + [slotId];
        keys := keys + {slotId};
      }
      Extend(history, Unpinned(slotId));
      history := history + [Unpinned(slotId)];
      return Ok;
    }

    method GetVictim() returns (r: Result<nat>)
      requires Valid()
      modifies this
      ensures Valid() && Distinct(list)
      ensures r == if old(list) == [] then Failure(NotFound) else Success(old(list)[0])
      ensures r.Success? ==> list == old(list)[1..] && history == old(history) + [Evicted(r.value)]
      ensures r.Failure? ==> unchanged(this)
    {
      hide ListAfter, Since, Without;
      if list == [] {
        return Failure(NotFound);
      }
      var victim := list[0];
      WithoutFront(list);
      list := list[1..];
      keys := keys - {victim};
      Extend(history, Evicted(victim));
      history := history + [Evicted(victim)];
      return Success(victim);
    }
  }
}

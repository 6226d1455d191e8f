/** The slot record of one doctor and the slot-store queries. */
module Slots {
  import opened Outcome
  import opened Seqs

  /** A capacity-bounded time slot. `start` is an abstract, totally ordered key
      standing for the start-time string. `tokenIds` lists the admitted tokens in
      insertion order. */
  datatype Slot = Slot(id: nat, doctorId: nat, start: nat, end: nat, capacity: int, tokenIds: seq<nat>)
  {
    /** `isFull`: no room left for a direct admission. */
    predicate IsFull() {
      |tokenIds| >= capacity
    }

    /** `getCurrentCount`: the number of admitted tokens. */
    function CurrentCount(): nat {
      |tokenIds|
    }

    /** `addToken`: append the id unless it is already present. */
    function AddToken(tid: nat): (r: Slot)
      ensures r.(tokenIds := tokenIds) == this
      ensures tid in r.tokenIds
      ensures forall x :: x in r.tokenIds <==> x in tokenIds || x == tid
    {
      if tid in tokenIds then this else this.(tokenIds := tokenIds + [tid])
    }

    /** `removeToken`: keep every id other than `tid`. */
    function RemoveToken(tid: nat): (r: Slot)
      ensures r.(tokenIds := tokenIds) == this
      ensures tid !in r.tokenIds
      ensures forall x :: x != tid ==> (x in r.tokenIds <==> x in tokenIds)
      ensures |r.tokenIds| <= |tokenIds|
    {
      this.(tokenIds := Filter(tokenIds, (x: nat) => x != tid))
    }
  }

  /** The ids of a slot list, position by position. */
  function SlotIds(slots: seq<Slot>): (r: seq<nat>)
    ensures |r| == |slots|
    ensures forall i :: 0 <= i < |slots| ==> r[i] == slots[i].id
  {
    seq(|slots|, i requires 0 <= i < |slots| => slots[i].id)
  }

  /** Position of the first slot with this id, or -1 (`find` on the slot store). */
  function SlotIndex(slots: seq<Slot>, id: nat): int {
    FindIndex(SlotIds(slots), id)
  }

  /** `getById`: the first slot carrying the id, or nothing. */
  function GetById(slots: seq<Slot>, id: nat): (r: Option<Slot>)
    ensures r.None? <==> forall i :: 0 <= i < |slots| ==> slots[i].id != id
    ensures r.Some? ==> r.value.id == id && r.value in slots
    ensures r.Some? ==> exists i :: 0 <= i < |slots| && slots[i] == r.value
                                    && forall j :: 0 <= j < i ==> slots[j].id != id
  {
    var i := SlotIndex(slots, id);
    if i < 0 then None
    else
      assert slots[i].id == id;
      Some(slots[i])
  }

  /** `getByDoctor`: the slots of one doctor, in store order. */
  function GetByDoctor(slots: seq<Slot>, doctorId: nat): (r: seq<Slot>)
    ensures forall i :: 0 <= i < |r| ==> r[i] in slots && r[i].doctorId == doctorId
    ensures forall i :: 0 <= i < |slots| && slots[i].doctorId == doctorId ==> slots[i] in r
  {
    Filter(slots, (s: Slot) => s.doctorId == doctorId)
  }

  /** `getByDoctor` keeps store order: it distributes over concatenation of stores. */
  lemma GetByDoctorAppend(a: seq<Slot>, b: seq<Slot>, doctorId: nat)
    ensures GetByDoctor(a + b, doctorId) == GetByDoctor(a, doctorId) + GetByDoctor(b, doctorId)
  {
    FilterAppend(a, b, (s: Slot) => s.doctorId == doctorId);
  }

  /** On a one-slot store `getByDoctor` keeps the slot exactly when it belongs
      to the doctor; with `GetByDoctorAppend` this determines the result. */
  lemma GetByDoctorSingle(s: Slot, doctorId: nat)
    ensures GetByDoctor([s], doctorId) == if s.doctorId == doctorId then [s] else []
  {
  }

  /** `isFull` holds exactly when the occupant count has reached the capacity. */
  lemma IsFullMeansNoRoom(s: Slot)
    ensures s.IsFull() <==> !(s.CurrentCount() < s.capacity)
  {
  }

  /** Adding an id twice is the same as adding it once. */
  lemma AddTokenIdempotent(s: Slot, tid: nat)
    ensures s.AddToken(tid).AddToken(tid) == s.AddToken(tid)
  {
  }

  /** Adding an absent id raises the count by exactly one and puts the id last,
      after the old occupants in their old order. */
  lemma AddAbsentToken(s: Slot, tid: nat)
    requires tid !in s.tokenIds
    ensures s.AddToken(tid).CurrentCount() == s.CurrentCount() + 1
    ensures s.AddToken(tid).tokenIds[..s.CurrentCount()] == s.tokenIds
    ensures s.AddToken(tid).tokenIds[s.CurrentCount()] == tid
  {
  }

  /** Adding a present id changes nothing. */
  lemma AddPresentToken(s: Slot, tid: nat)
    requires tid in s.tokenIds
    ensures s.AddToken(tid) == s
  {
  }

  /** Removing an absent id changes nothing. */
  lemma RemoveAbsentToken(s: Slot, tid: nat)
    requires tid !in s.tokenIds
    ensures s.RemoveToken(tid) == s
  {
    FilterKeepsAll(s.tokenIds, (x: nat) => x != tid);
  }

  /** `removeToken` undoes `addToken` of an absent id. */
  lemma RemoveUndoesAdd(s: Slot, tid: nat)
    requires tid !in s.tokenIds
    ensures s.AddToken(tid).RemoveToken(tid) == s
  {
    var p := (x: nat) => x != tid;
    FilterAppend(s.tokenIds, [tid], p);
    FilterKeepsAll(s.tokenIds, p);
    assert Filter([tid], p) == [];
  }

  /** `removeToken` keeps the remaining ids in their order: removal commutes with
      splitting the occupant list. */
  lemma RemoveKeepsOrder(s: Slot, tid: nat, k: nat)
    requires k <= |s.tokenIds|
    ensures s.RemoveToken(tid).tokenIds
         == s.(tokenIds := s.tokenIds[..k]).RemoveToken(tid).tokenIds
          + s.(tokenIds := s.tokenIds[k..]).RemoveToken(tid).tokenIds
  {
    assert s.tokenIds == s.tokenIds[..k] + s.tokenIds[k..];
    FilterAppend(s.tokenIds[..k], s.tokenIds[k..], (x: nat) => x != tid);
  }

  /** Removing an id that occurs once in a duplicate-free list lowers the count by one. */
  lemma RemovePresentToken(s: Slot, tid: nat)
    requires Distinct(s.tokenIds)
    requires tid in s.tokenIds
    ensures s.RemoveToken(tid).CurrentCount() == s.CurrentCount() - 1
    ensures Distinct(s.RemoveToken(tid).tokenIds)
  {
    FilterDropsOne(s.tokenIds, tid);
    FilterDistinct(s.tokenIds, (x: nat) => x != tid);
  }
}

/** The in-memory store shared by every model: the doctor, slot and token
    collections and the one id counter they all draw from. Creating a slot or a
    token is a store update, so `create` of both records lives here too. */
module Stores {
  import opened Outcome
  import opened Seqs
  import opened Constants
  import opened Slots
  import opened Tokens

  /** The store. Doctor records are outside this model; only their ids are kept,
      because doctors draw their ids from the same counter. */
  datatype Store = Store(doctors: seq<nat>, slots: seq<Slot>, tokens: seq<Token>, idCounter: nat)

  /** Every id lies in 1 .. idCounter-1. */
  ghost predicate Below(ids: seq<nat>, bound: nat) {
    forall i :: 0 <= i < |ids| ==> 1 <= ids[i] < bound
  }

  /** No id occurs in both lists. */
  ghost predicate Disjoint(a: seq<nat>, b: seq<nat>) {
    forall i, j :: 0 <= i < |a| && 0 <= j < |b| ==> a[i] != b[j]
  }

  /** The counter invariant: every issued id is positive, below the counter, and
      no two entities of any kind share one. */
  ghost predicate Fresh(st: Store) {
    var sids := SlotIds(st.slots);
    var tids := TokenIds(st.tokens);
    && st.idCounter >= 1
    && Below(st.doctors, st.idCounter) && Below(sids, st.idCounter) && Below(tids, st.idCounter)
    && Distinct(st.doctors) && Distinct(sids) && Distinct(tids)
    && Disjoint(st.doctors, sids) && Disjoint(st.doctors, tids) && Disjoint(sids, tids)
  }

  /** Token `tid` exists, is `Allocated`, and names slot `sid`. */
  ghost predicate Seated(st: Store, tid: nat, sid: nat) {
    var k := TokenIndex(st.tokens, tid);
    0 <= k && st.tokens[k].status == Allocated && st.tokens[k].slotId == Some(sid)
  }

  /** A token is `Allocated` exactly when it names a slot, and the slot it names
      exists and lists it. */
  ghost predicate Placed(st: Store, t: Token) {
    && (t.status == Allocated <==> t.slotId.Some?)
    && (t.slotId.Some? ==>
          var j := SlotIndex(st.slots, t.slotId.value);
          0 <= j && t.id in st.slots[j].tokenIds)
  }

  /** Occupancy never exceeds capacity. A slot created with a capacity of zero or
      less (the creating call accepts any parsed integer) can only stay empty. */
  ghost predicate WithinCapacity(s: Slot) {
    |s.tokenIds| == 0 || |s.tokenIds| <= s.capacity
  }

  /** The data-model invariant the allocation engine keeps: ids are unique, no slot
      lists a token twice or holds more than its capacity, every listed token is
      `Allocated` to that very slot, and every token is `Placed`. */
  ghost predicate Consistent(st: Store) {
    && Distinct(SlotIds(st.slots))
    && Distinct(TokenIds(st.tokens))
    && (forall j :: 0 <= j < |st.slots| ==>
          Distinct(st.slots[j].tokenIds) && WithinCapacity(st.slots[j]))
    && (forall j, n :: 0 <= j < |st.slots| && 0 <= n < |st.slots[j].tokenIds| ==>
          Seated(st, st.slots[j].tokenIds[n], st.slots[j].id))
    && (forall k :: 0 <= k < |st.tokens| ==> Placed(st, st.tokens[k]))
  }

  /** What holds of every store the system can reach. */
  ghost predicate Valid(st: Store) {
    Consistent(st) && Fresh(st)
  }

  /** `generateId`: hand out the current counter value, then advance the counter. */
  function GenerateId(st: Store): (r: (nat, Store))
    ensures r.1 == st.(idCounter := r.0 + 1)
    ensures r.0 == st.idCounter
    ensures Fresh(st) ==> r.0 >= 1 && r.0 !in st.doctors
                          && r.0 !in SlotIds(st.slots) && r.0 !in TokenIds(st.tokens)
  {
    (st.idCounter, st.(idCounter := st.idCounter + 1))
  }

  /** Successive ids strictly increase. */
  lemma IdsIncrease(st: Store)
    ensures GenerateId(GenerateId(st).1).0 == GenerateId(st).0 + 1
  {
  }

  /** `reset`: empty collections and a counter back at 1. */
  function Reset(): (r: Store)
    ensures r.doctors == [] && r.slots == [] && r.tokens == [] && r.idCounter == 1
    ensures Valid(r)
  {
    Store([], [], [], 1)
  }

  /** `Slot.create`: a slot with a fresh id and no tokens, appended to the store. */
  function CreateSlot(st: Store, doctorId: nat, start: nat, end: nat, capacity: int): (r: (Store, Slot))
    ensures r.1.id == st.idCounter && r.1.tokenIds == []
    ensures r.1.doctorId == doctorId && r.1.start == start && r.1.end == end && r.1.capacity == capacity
    ensures r.0 == st.(slots := st.slots + [r.1], idCounter := st.idCounter + 1)
    ensures Fresh(st) ==> Slots.GetById(r.0.slots, r.1.id) == Some(r.1)
  {
    var (id, st1) := GenerateId(st);
    var s := Slot(id, doctorId, start, end, capacity, []);
    assert (st.slots + [s])[|st.slots|] == s;
    (st1.(slots := st1.slots + [s]), s)
  }

  /** `Token.create`: a token with a fresh id, status `Waitlisted`, appended to the store. */
  function CreateToken(st: Store, patientName: string, source: string, priority: int,
                       slotId: Option<nat>, timestamp: nat): (r: (Store, Token))
    ensures r.1.id == st.idCounter && r.1.status == Waitlisted
    ensures r.1.patientName == patientName && r.1.source == source && r.1.priority == priority
    ensures r.1.slotId == slotId && r.1.timestamp == timestamp
    ensures r.0 == st.(tokens := st.tokens + [r.1], idCounter := st.idCounter + 1)
    ensures Fresh(st) ==> Tokens.GetById(r.0.tokens, r.1.id) == Some(r.1)
  {
    var (id, st1) := GenerateId(st);
    var t := NewToken(id, patientName, source, priority, slotId, timestamp);
    assert (st.tokens + [t])[|st.tokens|] == t;
    (st1.(tokens := st1.tokens + [t]), t)
  }

  lemma AppendFresh(ids: seq<nat>, c: nat)
    requires Distinct(ids) && Below(ids, c) && c >= 1
    ensures Distinct(ids + [c]) && Below(ids + [c], c + 1)
  {
  }

  /** Creating a slot keeps every reachable-store invariant. */
  lemma CreateSlotValid(st: Store, doctorId: nat, start: nat, end: nat, capacity: int)
    requires Valid(st)
    ensures Valid(CreateSlot(st, doctorId, start, end, capacity).0)
  {
    var (st', s) := CreateSlot(st, doctorId, start, end, capacity);
    var c := st.idCounter;
    assert SlotIds(st'.slots) == SlotIds(st.slots) + [c];
    assert TokenIds(st'.tokens) == TokenIds(st.tokens);
    AppendFresh(SlotIds(st.slots), c);
    CreateSlotConsistent(st, st', s);
  }

  lemma CreateSlotConsistent(st: Store, st': Store, s: Slot)
    requires Consistent(st)
    requires st' == st.(slots := st.slots + [s], idCounter := st'.idCounter)
    requires s.tokenIds == [] && s.id !in SlotIds(st.slots)
    ensures Consistent(st')
  {
    assert SlotIds(st'.slots) == SlotIds(st.slots) + [s.id];
    assert TokenIds(st'.tokens) == TokenIds(st.tokens);
    assert Distinct(SlotIds(st'.slots));
    forall k | 0 <= k < |st'.tokens|
      ensures Placed(st', st'.tokens[k])
    {
      var t := st.tokens[k];
      assert Placed(st, t);
      if t.slotId.Some? {
        var j := SlotIndex(st.slots, t.slotId.value);
        FindIndexAppend(SlotIds(st.slots), [s.id], t.slotId.value);
        assert st'.slots[j] == st.slots[j];
      }
    }
    forall j, n | 0 <= j < |st'.slots| && 0 <= n < |st'.slots[j].tokenIds|
      ensures Seated(st', st'.slots[j].tokenIds[n], st'.slots[j].id)
    {
      assert j < |st.slots|;
      assert st'.slots[j] == st.slots[j];
      assert Seated(st, st.slots[j].tokenIds[n], st.slots[j].id);
    }
    forall j | 0 <= j < |st'.slots|
      ensures Distinct(st'.slots[j].tokenIds) && WithinCapacity(st'.slots[j])
    {
      if j < |st.slots| {
        assert st'.slots[j] == st.slots[j];
      }
    }
  }

  /** Creating an unassigned token keeps every reachable-store invariant. */
  lemma CreateTokenValid(st: Store, patientName: string, source: string, priority: int, timestamp: nat)
    requires Valid(st)
    ensures Valid(CreateToken(st, patientName, source, priority, None, timestamp).0)
  {
    var (st', t) := CreateToken(st, patientName, source, priority, None, timestamp);
    var c := st.idCounter;
    assert TokenIds(st'.tokens) == TokenIds(st.tokens) + [c];
    AppendFresh(TokenIds(st.tokens), c);
    assert SlotIds(st'.slots) == SlotIds(st.slots);
    CreateTokenConsistent(st, st', t);
  }

  lemma CreateTokenConsistent(st: Store, st': Store, t: Token)
    requires Consistent(st)
    requires st' == st.(tokens := st.tokens + [t], idCounter := st'.idCounter)
    requires t.slotId.None? && t.status != Allocated && t.id !in TokenIds(st.tokens)
    ensures Consistent(st')
  {
    var ids := TokenIds(st.tokens);
    assert TokenIds(st'.tokens) == ids + [t.id];
    assert Distinct(TokenIds(st'.tokens));
    forall k | 0 <= k < |st'.tokens|
      ensures Placed(st', st'.tokens[k])
    {
      if k < |st.tokens| {
        assert st'.tokens[k] == st.tokens[k];
        assert Placed(st, st.tokens[k]);
      }
    }
    forall j, n | 0 <= j < |st'.slots| && 0 <= n < |st'.slots[j].tokenIds|
      ensures Seated(st', st'.slots[j].tokenIds[n], st'.slots[j].id)
    {
      var x := st.slots[j].tokenIds[n];
      assert Seated(st, x, st.slots[j].id);
      assert x in ids;
      FindIndexAppend(ids, [t.id], x);
      assert TokenIndex(st'.tokens, x) == TokenIndex(st.tokens, x);
    }
  }
}

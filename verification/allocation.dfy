/** The allocation engine: admission with preemption, the forward cascade, and
    cancellation. Every operation maps a store to a new store; a token is handled
    by its id and a slot by its id, as the service code handles them by object. */
module Allocation {
  import opened Outcome
  import opened Seqs
  import opened Constants
  import opened Slots
  import opened Tokens
  import opened Stores
  import opened Schedule

  /** The errors the engine throws. `SlotMissing` stands for the crash of
      `cancelToken` on a token naming a slot the store does not hold. */
  datatype Error = InvalidSource | SlotNotFound | TokenNotFound | SlotMissing

  /** The slot with this id exists. */
  ghost predicate HasSlot(st: Store, sid: nat) {
    0 <= SlotIndex(st.slots, sid)
  }

  /** The token with this id exists and is not `Allocated`, so (in a consistent
      store) it sits in no slot: it is the token the cascade is placing. */
  ghost predicate Waiting(st: Store, tid: nat) {
    var k := TokenIndex(st.tokens, tid);
    0 <= k && st.tokens[k].status != Allocated
  }

  /** What the engine never changes: doctors, counter, slot layout, token ids,
      and every field of a token other than its status and slot. */
  ghost predicate SameShape(a: Store, b: Store) {
    && a.doctors == b.doctors && a.idCounter == b.idCounter
    && SameLayout(a.slots, b.slots) && TokenIds(a.tokens) == TokenIds(b.tokens)
    && forall k :: 0 <= k < |a.tokens| ==>
         b.tokens[k].(status := a.tokens[k].status, slotId := a.tokens[k].slotId) == a.tokens[k]
  }

  /** The tokens a slot lists, looked up in the store (`tokenIds.map(getById)`). */
  function Occupants(st: Store, ids: seq<nat>): (r: seq<Token>)
    requires forall i :: 0 <= i < |ids| ==> 0 <= TokenIndex(st.tokens, ids[i])
    ensures |r| == |ids|
    ensures forall i :: 0 <= i < |ids| ==> r[i] in st.tokens && r[i].id == ids[i]
  {
    seq(|ids|, i requires 0 <= i < |ids| => st.tokens[TokenIndex(st.tokens, ids[i])])
  }

  /** `a` is evicted before `b`: a larger priority value, or the same value and a
      later timestamp. This is the service code's comparator read as "sorts first". */
  predicate Outranks(a: Token, b: Token) {
    a.priority > b.priority || (a.priority == b.priority && a.timestamp > b.timestamp)
  }

  /** The victim: the element a stable sort by the comparator puts first, that is
      the earliest occupant that no occupant outranks. */
  function PickVictim(occ: seq<Token>): (r: Option<nat>)
    ensures r.None? <==> |occ| == 0
    ensures r.Some? ==> r.value < |occ|
    ensures r.Some? ==> forall j :: 0 <= j < |occ| ==> !Outranks(occ[j], occ[r.value])
    ensures r.Some? ==> forall j :: 0 <= j < r.value ==> Outranks(occ[r.value], occ[j])
  {
    if |occ| == 0 then None
    else
      var last := |occ| - 1;
      match PickVictim(occ[..last])
      case None => Some(0)
      case Some(b) => if Outranks(occ[last], occ[b]) then Some(last) else Some(b)
  }

  /** One step of `tryAllocate` at a slot. */
  datatype Step =
    | Admit            // room left: admit directly
    | Bump(seat: nat)  // full, and the occupant at this position is evicted
    | Push             // full, and the incoming token moves on

  /** The decision `tryAllocate` takes. A direct admission happens exactly when
      the slot has room. A bump picks the victim described by `PickVictim` and
      happens only when the incoming priority value is strictly smaller than the
      victim's. Pushing forward happens exactly when the slot is full and no
      occupant has a larger priority value than the incoming token (so equal
      priorities never bump, and neither does a full slot with no occupants). */
  function Decide(st: Store, tid: nat, sid: nat): (r: Step)
    requires Consistent(st) && Waiting(st, tid) && HasSlot(st, sid)
    ensures var slot := st.slots[SlotIndex(st.slots, sid)];
            var tok := st.tokens[TokenIndex(st.tokens, tid)];
            var occ := Occupants(st, slot.tokenIds);
      && (r.Admit? <==> !slot.IsFull())
      && (r.Bump? ==>
            && slot.IsFull() && r.seat < |occ|
            && occ[r.seat].id == slot.tokenIds[r.seat]
            && tok.priority < occ[r.seat].priority
            && (forall j :: 0 <= j < |occ| ==> !Outranks(occ[j], occ[r.seat]))
            && (forall j :: 0 <= j < r.seat ==> Outranks(occ[r.seat], occ[j])))
      && (r.Push? <==> slot.IsFull() && forall j :: 0 <= j < |occ| ==> occ[j].priority <= tok.priority)
  {
    var slot := st.slots[SlotIndex(st.slots, sid)];
    assert forall n :: 0 <= n < |slot.tokenIds| ==> Seated(st, slot.tokenIds[n], slot.id);
    if |slot.tokenIds| < slot.capacity then Admit
    else
      var occ := Occupants(st, slot.tokenIds);
      var tok := st.tokens[TokenIndex(st.tokens, tid)];
      match PickVictim(occ)
      case None => Push
      case Some(v) => if tok.priority < occ[v].priority then Bump(v) else Push
  }

  /** `assignTokenToSlot`: the token names the slot and is `Allocated`; the slot
      lists the token. */
  function Assign(st: Store, tid: nat, sid: nat): (r: Store)
    requires 0 <= TokenIndex(st.tokens, tid) && HasSlot(st, sid)
    ensures SameShape(st, r)
  {
    var k := TokenIndex(st.tokens, tid);
    var j := SlotIndex(st.slots, sid);
    var t := st.tokens[k].(slotId := Some(sid)).UpdateStatus(Allocated);
    SameIdsAfterUpdate(st.tokens, k, t);
    st.(tokens := st.tokens[k := t], slots := st.slots[j := st.slots[j].AddToken(tid)])
  }

  /** `removeTokenFromSlot`: the slot drops the token, which names no slot and is
      reset to `Pending`. */
  function Unassign(st: Store, tid: nat, sid: nat): (r: Store)
    requires 0 <= TokenIndex(st.tokens, tid) && HasSlot(st, sid)
    ensures SameShape(st, r)
  {
    var k := TokenIndex(st.tokens, tid);
    var j := SlotIndex(st.slots, sid);
    var t := st.tokens[k].(slotId := None).UpdateStatus(Pending);
    SameIdsAfterUpdate(st.tokens, k, t);
    st.(tokens := st.tokens[k := t], slots := st.slots[j := st.slots[j].RemoveToken(tid)])
  }

  /** The end of the cascade: the token is `Waitlisted` and names no slot. */
  function Waitlist(st: Store, tid: nat): (r: Store)
    requires 0 <= TokenIndex(st.tokens, tid)
    ensures SameShape(st, r)
  {
    var k := TokenIndex(st.tokens, tid);
    var t := st.tokens[k].UpdateStatus(Waitlisted).(slotId := None);
    SameIdsAfterUpdate(st.tokens, k, t);
    LayoutIds(st.slots, st.slots);
    st.(tokens := st.tokens[k := t])
  }

  /** A waiting token is listed in no slot. */
  lemma WaitingIsUnseated(st: Store, tid: nat)
    requires Consistent(st) && Waiting(st, tid)
    ensures forall j :: 0 <= j < |st.slots| ==> tid !in st.slots[j].tokenIds
    ensures st.tokens[TokenIndex(st.tokens, tid)].slotId.None?
  {
    var k := TokenIndex(st.tokens, tid);
    assert Placed(st, st.tokens[k]);
    forall j, n | 0 <= j < |st.slots| && 0 <= n < |st.slots[j].tokenIds|
      ensures st.slots[j].tokenIds[n] != tid
    {
      assert Seated(st, st.slots[j].tokenIds[n], st.slots[j].id);
    }
  }

  /** Admitting a waiting token into a slot with room keeps the store consistent. */
  lemma AssignConsistent(st: Store, tid: nat, sid: nat)
    requires Consistent(st) && Waiting(st, tid) && HasSlot(st, sid)
    requires !st.slots[SlotIndex(st.slots, sid)].IsFull()
    ensures Consistent(Assign(st, tid, sid))
    ensures Seated(Assign(st, tid, sid), tid, sid)
  {
    var r := Assign(st, tid, sid);
    var k := TokenIndex(st.tokens, tid);
    var j := SlotIndex(st.slots, sid);
    WaitingIsUnseated(st, tid);
    LayoutIds(st.slots, r.slots);
    var before := st.slots[j].tokenIds;
    assert r.slots[j].tokenIds == before + [tid];
    assert SlotIds(st.slots)[j] == sid;
    forall j' | 0 <= j' < |r.slots|
      ensures Distinct(r.slots[j'].tokenIds) && WithinCapacity(r.slots[j'])
    {
    }
    forall j', n | 0 <= j' < |r.slots| && 0 <= n < |r.slots[j'].tokenIds|
      ensures Seated(r, r.slots[j'].tokenIds[n], r.slots[j'].id)
    {
      var x := r.slots[j'].tokenIds[n];
      if j' == j && n == |before| {
        assert x == tid;
      } else {
        assert x == st.slots[j'].tokenIds[n];
        assert Seated(st, x, st.slots[j'].id);
        assert x != tid;
      }
    }
    forall k' | 0 <= k' < |r.tokens|
      ensures Placed(r, r.tokens[k'])
    {
      if k' != k {
        var t := st.tokens[k'];
        assert Placed(st, t);
        assert r.tokens[k'] == t;
      }
    }
  }

  /** Evicting an occupant keeps the store consistent, makes the evicted token
      waiting, and frees exactly one seat. */
  lemma UnassignConsistent(st: Store, tid: nat, sid: nat)
    requires Consistent(st) && HasSlot(st, sid)
    requires tid in st.slots[SlotIndex(st.slots, sid)].tokenIds
    ensures 0 <= TokenIndex(st.tokens, tid)
    ensures Consistent(Unassign(st, tid, sid)) && Waiting(Unassign(st, tid, sid), tid)
    ensures var j := SlotIndex(st.slots, sid);
            |Unassign(st, tid, sid).slots[j].tokenIds| == |st.slots[j].tokenIds| - 1
  {
    var j := SlotIndex(st.slots, sid);
    var n0 :| 0 <= n0 < |st.slots[j].tokenIds| && st.slots[j].tokenIds[n0] == tid;
    assert Seated(st, st.slots[j].tokenIds[n0], st.slots[j].id);
    var k := TokenIndex(st.tokens, tid);
    var r := Unassign(st, tid, sid);
    LayoutIds(st.slots, r.slots);
    RemovePresentToken(st.slots[j], tid);
    assert SlotIds(st.slots)[j] == sid;
    forall j' | 0 <= j' < |r.slots|
      ensures Distinct(r.slots[j'].tokenIds) && WithinCapacity(r.slots[j'])
    {
    }
    forall j', n | 0 <= j' < |r.slots| && 0 <= n < |r.slots[j'].tokenIds|
      ensures Seated(r, r.slots[j'].tokenIds[n], r.slots[j'].id)
    {
      var x := r.slots[j'].tokenIds[n];
      assert x in st.slots[j'].tokenIds;
      var m :| 0 <= m < |st.slots[j'].tokenIds| && st.slots[j'].tokenIds[m] == x;
      assert Seated(st, st.slots[j'].tokenIds[m], st.slots[j'].id);
      assert j' != j ==> SlotIds(st.slots)[j'] != SlotIds(st.slots)[j];
      assert x != tid;
    }
    forall k' | 0 <= k' < |r.tokens|
      ensures Placed(r, r.tokens[k'])
    {
      if k' != k {
        var t := st.tokens[k'];
        assert Placed(st, t);
        assert r.tokens[k'] == t;
        assert t.id != tid;
      }
    }
  }

  /** Waitlisting a waiting token keeps the store consistent. */
  lemma WaitlistConsistent(st: Store, tid: nat)
    requires Consistent(st) && Waiting(st, tid)
    ensures Consistent(Waitlist(st, tid))
  {
    var r := Waitlist(st, tid);
    var k := TokenIndex(st.tokens, tid);
    WaitingIsUnseated(st, tid);
    forall j', n | 0 <= j' < |r.slots| && 0 <= n < |r.slots[j'].tokenIds|
      ensures Seated(r, r.slots[j'].tokenIds[n], r.slots[j'].id)
    {
      var x := r.slots[j'].tokenIds[n];
      assert Seated(st, x, st.slots[j'].id);
      assert x != tid;
    }
    forall k' | 0 <= k' < |r.tokens|
      ensures Placed(r, r.tokens[k'])
    {
      if k' != k {
        assert Placed(st, st.tokens[k']);
      }
    }
  }

  /** Token `tid` ends `Allocated` to slot `sid` or to a slot after it in its
      doctor's walk order, or `Waitlisted` with no slot. */
  ghost predicate SettledFrom(r: Store, tid: nat, slots: seq<Slot>, sid: nat) {
    var k := TokenIndex(r.tokens, tid);
    && 0 <= k
    && var t := r.tokens[k];
      || (t.status == Allocated && t.slotId.Some? && AtOrAfter(slots, sid, t.slotId.value))
      || (t.status == Waitlisted && t.slotId.None?)
  }

  /** Token `tid` ends `Allocated` to a slot strictly after `sid`, or `Waitlisted`. */
  ghost predicate SettledAfter(r: Store, tid: nat, slots: seq<Slot>, sid: nat) {
    var k := TokenIndex(r.tokens, tid);
    && 0 <= k
    && var t := r.tokens[k];
      || (t.status == Allocated && t.slotId.Some? && After(slots, sid, t.slotId.value))
      || (t.status == Waitlisted && t.slotId.None?)
  }

  /** Every slot of another doctor, and every slot before `sid`, is untouched. */
  ghost predicate SlotsKeptBefore(st: Store, r: Store, sid: nat) {
    && |r.slots| == |st.slots|
    && forall j :: 0 <= j < |st.slots| && !AtOrAfter(st.slots, sid, st.slots[j].id) ==>
         r.slots[j] == st.slots[j]
  }

  /** Every slot of another doctor, and `sid` with every slot before it, is untouched. */
  ghost predicate SlotsKeptUpTo(st: Store, r: Store, sid: nat) {
    && |r.slots| == |st.slots|
    && forall j :: 0 <= j < |st.slots| && !After(st.slots, sid, st.slots[j].id) ==>
         r.slots[j] == st.slots[j]
  }

  /** Every token other than `tid` that is not seated at or after `sid` is untouched. */
  ghost predicate TokensKeptBefore(st: Store, r: Store, tid: nat, sid: nat) {
    && |r.tokens| == |st.tokens|
    && forall k ::
         (&& 0 <= k < |st.tokens| && st.tokens[k].id != tid
          && !(st.tokens[k].slotId.Some? && AtOrAfter(st.slots, sid, st.tokens[k].slotId.value))) ==>
         r.tokens[k] == st.tokens[k]
  }

  /** Every token other than `tid` that is not seated after `sid` is untouched. */
  ghost predicate TokensKeptUpTo(st: Store, r: Store, tid: nat, sid: nat) {
    && |r.tokens| == |st.tokens|
    && forall k ::
         (&& 0 <= k < |st.tokens| && st.tokens[k].id != tid
          && !(st.tokens[k].slotId.Some? && After(st.slots, sid, st.tokens[k].slotId.value))) ==>
         r.tokens[k] == st.tokens[k]
  }

  /** No token the cascade touched is left `Pending` (or in any state other than
      `Allocated` or `Waitlisted`). */
  ghost predicate Resolved(st: Store, r: Store) {
    && |r.tokens| == |st.tokens|
    && forall k :: 0 <= k < |st.tokens| && r.tokens[k] != st.tokens[k] ==>
         r.tokens[k].status == Allocated || r.tokens[k].status == Waitlisted
  }

  /** What `tryAllocate(token, slot)` guarantees: the store stays consistent and
      keeps its shape, the token settles at `sid` or later or is waitlisted, and
      only slots from `sid` on and the tokens seated there change, each ending
      `Allocated` or `Waitlisted`. */
  ghost predicate CascadeFrom(st: Store, r: Store, tid: nat, sid: nat) {
    && Consistent(r) && SameShape(st, r)
    && SettledFrom(r, tid, st.slots, sid)
    && SlotsKeptBefore(st, r, sid) && TokensKeptBefore(st, r, tid, sid)
    && Resolved(st, r)
  }

  /** What `reallocate(token, slot)` guarantees: as `CascadeFrom`, but strictly
      after `sid`, which itself is left alone. */
  ghost predicate CascadeAfter(st: Store, r: Store, tid: nat, sid: nat) {
    && Consistent(r) && SameShape(st, r)
    && SettledAfter(r, tid, st.slots, sid)
    && SlotsKeptUpTo(st, r, sid) && TokensKeptUpTo(st, r, tid, sid)
    && Resolved(st, r)
  }

  /** Every slot of `sid`'s doctor after `sid` is full in `r`. */
  ghost predicate FullAfter(st: Store, r: Store, sid: nat) {
    && |r.slots| == |st.slots|
    && forall j :: 0 <= j < |st.slots| && After(st.slots, sid, st.slots[j].id) ==> r.slots[j].IsFull()
  }

  /** Slot `sid` and every slot of its doctor after it are full in `r`. */
  ghost predicate FullFrom(st: Store, r: Store, sid: nat) {
    && FullAfter(st, r, sid)
    && var j := SlotIndex(st.slots, sid);
       0 <= j < |r.slots| && r.slots[j].IsFull()
  }

  /** A token the cascade leaves `Waitlisted`, the one it places or one it moved,
      was turned away only because slot `sid` and every later slot are full. */
  ghost predicate TurnedAwayFrom(st: Store, r: Store, tid: nat, sid: nat) {
    && |r.tokens| == |st.tokens|
    && forall k ::
         (&& 0 <= k < |st.tokens|
          && (k == TokenIndex(st.tokens, tid) || r.tokens[k] != st.tokens[k])
          && r.tokens[k].status == Waitlisted) ==>
         FullFrom(st, r, sid)
  }

  /** As `TurnedAwayFrom`, for the slots strictly after `sid`. */
  ghost predicate TurnedAwayAfter(st: Store, r: Store, tid: nat, sid: nat) {
    && |r.tokens| == |st.tokens|
    && forall k ::
         (&& 0 <= k < |st.tokens|
          && (k == TokenIndex(st.tokens, tid) || r.tokens[k] != st.tokens[k])
          && r.tokens[k].status == Waitlisted) ==>
         FullAfter(st, r, sid)
  }

  /** `tryAllocate`: admit, bump-and-cascade the victim, or cascade the token. */
  function TryAllocate(st: Store, tid: nat, sid: nat): (r: Store)
    requires Consistent(st) && Waiting(st, tid) && HasSlot(st, sid)
    ensures CascadeFrom(st, r, tid, sid)
    decreases Remaining(st.slots, sid), 1
  {
    match Decide(st, tid, sid)
    case Admit =>
      AdmitSound(st, tid, sid);
      Assign(st, tid, sid)
    case Push =>
      var r := Reallocate(st, tid, sid);
      PushSound(st, tid, sid, r);
      r
    case Bump(seat) =>
      var v := st.slots[SlotIndex(st.slots, sid)].tokenIds[seat];
      BumpPrepared(st, tid, sid, seat);
      var st2 := Assign(Unassign(st, v, sid), tid, sid);
      var r := Reallocate(st2, v, sid);
      BumpSound(st, tid, sid, seat, r);
      r
  }

  /** `reallocate`: try the next slot of the doctor, or waitlist the token. */
  function Reallocate(st: Store, tid: nat, sid: nat): (r: Store)
    requires Consistent(st) && Waiting(st, tid) && HasSlot(st, sid)
    ensures CascadeAfter(st, r, tid, sid)
    decreases Remaining(st.slots, sid), 0
  {
    var cur := st.slots[SlotIndex(st.slots, sid)];
    match NextSlotId(st.slots, cur)
    case None =>
      LastSound(st, tid, sid);
      Waitlist(st, tid)
    case Some(n) =>
      NextSlotFacts(st.slots, sid, n);
      var r := TryAllocate(st, tid, n);
      NextSound(st, tid, sid, n, r);
      r
  }

  /** `tryAllocate` leaves a token `Waitlisted`, the one it places or one it
      moved, only when slot `sid` and every later slot of the doctor are full. */
  lemma {:induction false} TryAllocateTurnsAway(st: Store, tid: nat, sid: nat)
    requires Consistent(st) && Waiting(st, tid) && HasSlot(st, sid)
    ensures TurnedAwayFrom(st, TryAllocate(st, tid, sid), tid, sid)
    decreases Remaining(st.slots, sid), 1
  {
    match Decide(st, tid, sid)
    case Admit =>
      AdmitTurnedAway(st, tid, sid);
    case Push =>
      ReallocateTurnsAway(st, tid, sid);
      PushTurnedAway(st, tid, sid, Reallocate(st, tid, sid));
    case Bump(seat) =>
      var j := SlotIndex(st.slots, sid);
      var v := st.slots[j].tokenIds[seat];
      BumpPrepared(st, tid, sid, seat);
      assert Seated(st, st.slots[j].tokenIds[seat], st.slots[j].id);
      var st1 := Unassign(st, v, sid);
      var st2 := Assign(st1, tid, sid);
      ReallocateTurnsAway(st2, v, sid);
      BumpTurnedAway(st, st1, st2, Reallocate(st2, v, sid), tid, sid, v);
  }

  /** `reallocate` leaves a token `Waitlisted` only when every slot of the doctor
      after `sid` is full: it waitlists at once only past the last slot. */
  lemma {:induction false} ReallocateTurnsAway(st: Store, tid: nat, sid: nat)
    requires Consistent(st) && Waiting(st, tid) && HasSlot(st, sid)
    ensures TurnedAwayAfter(st, Reallocate(st, tid, sid), tid, sid)
    decreases Remaining(st.slots, sid), 0
  {
    var cur := st.slots[SlotIndex(st.slots, sid)];
    match NextSlotId(st.slots, cur)
    case None =>
      LastTurnedAway(st, tid, sid);
    case Some(n) =>
      NextSlotFacts(st.slots, sid, n);
      TryAllocateTurnsAway(st, tid, n);
      NextTurnedAway(st, tid, sid, n, TryAllocate(st, tid, n));
  }

  /** A pushed token whose next slot has room is seated there. */
  lemma OfferedToNext(st: Store, tid: nat, sid: nat, n: nat)
    requires Consistent(st) && Waiting(st, tid) && HasSlot(st, sid)
    requires NextSlotId(st.slots, st.slots[SlotIndex(st.slots, sid)]) == Some(n)
    requires 0 <= SlotIndex(st.slots, n) && !st.slots[SlotIndex(st.slots, n)].IsFull()
    ensures Seated(Reallocate(st, tid, sid), tid, n)
  {
    NextSlotFacts(st.slots, sid, n);
    assert Reallocate(st, tid, sid) == TryAllocate(st, tid, n);
    assert Decide(st, tid, n) == Admit;
    AssignConsistent(st, tid, n);
  }

  lemma AdmitTurnedAway(st: Store, tid: nat, sid: nat)
    requires Consistent(st) && Waiting(st, tid) && HasSlot(st, sid)
    ensures TurnedAwayFrom(st, Assign(st, tid, sid), tid, sid)
  {
  }

  lemma PushTurnedAway(st: Store, tid: nat, sid: nat, r: Store)
    requires Consistent(st) && HasSlot(st, sid)
    requires st.slots[SlotIndex(st.slots, sid)].IsFull()
    requires CascadeAfter(st, r, tid, sid) && TurnedAwayAfter(st, r, tid, sid)
    ensures TurnedAwayFrom(st, r, tid, sid)
  {
    var j := SlotIndex(st.slots, sid);
    SelfInOrder(st.slots, sid);
    assert st.slots[j].id == sid;
    assert !After(st.slots, sid, sid);
    assert r.slots[j] == st.slots[j];
  }

  /** After a bump the slot holds as many tokens as before, so it is still full,
      and whatever the victim's cascade waitlists was turned away from later
      slots that are all full. */
  lemma BumpTurnedAway(st: Store, st1: Store, st2: Store, r: Store, tid: nat, sid: nat, v: nat)
    requires Consistent(st) && Waiting(st, tid) && HasSlot(st, sid)
    requires st.slots[SlotIndex(st.slots, sid)].IsFull()
    requires 0 <= TokenIndex(st.tokens, v) && v != tid && Seated(st, v, sid)
    requires st1 == Unassign(st, v, sid) && Waiting(st1, tid) && Consistent(st1)
    requires st2 == Assign(st1, tid, sid)
    requires CascadeAfter(st2, r, v, sid) && TurnedAwayAfter(st2, r, v, sid)
    ensures TurnedAwayFrom(st, r, tid, sid)
  {
    var j := SlotIndex(st.slots, sid);
    var kt := TokenIndex(st.tokens, tid);
    var kv := TokenIndex(st.tokens, v);
    BumpFrame(st, st1, st2, r, tid, sid, v);
    RemovePresentToken(st.slots[j], v);
    assert r.slots[j].CurrentCount() == st.slots[j].CurrentCount();
    ShapeTrans(st, st1, st2);
    LayoutOrder(st.slots, st2.slots);
    LayoutIds(st.slots, st2.slots);
    assert TokenIndex(st1.tokens, tid) == kt;
    assert TokenIndex(st2.tokens, v) == kv;
    SelfInOrder(st.slots, sid);
    assert st2.tokens[kt].slotId == Some(sid) && !After(st.slots, sid, sid);
    assert r.tokens[kt] == st2.tokens[kt];
    forall k | && 0 <= k < |st.tokens|
               && (k == kt || r.tokens[k] != st.tokens[k])
               && r.tokens[k].status == Waitlisted
      ensures FullFrom(st, r, sid)
    {
      assert k != kt;
      if r.tokens[k] == st2.tokens[k] {
        assert k == kv;
      }
      assert FullAfter(st2, r, sid);
    }
  }

  lemma NextTurnedAway(st: Store, tid: nat, sid: nat, n: nat, r: Store)
    requires Consistent(st) && HasSlot(st, sid)
    requires NextSlotId(st.slots, st.slots[SlotIndex(st.slots, sid)]) == Some(n)
    requires TurnedAwayFrom(st, r, tid, n)
    ensures TurnedAwayAfter(st, r, tid, sid)
  {
    forall k | && 0 <= k < |st.tokens|
               && (k == TokenIndex(st.tokens, tid) || r.tokens[k] != st.tokens[k])
               && r.tokens[k].status == Waitlisted
      ensures FullAfter(st, r, sid)
    {
      NextFullAfter(st, r, sid, n);
    }
  }

  /** The slots after the current one are the next slot and the slots after it. */
  lemma NextFullAfter(st: Store, r: Store, sid: nat, n: nat)
    requires Distinct(SlotIds(st.slots)) && HasSlot(st, sid)
    requires NextSlotId(st.slots, st.slots[SlotIndex(st.slots, sid)]) == Some(n)
    requires FullFrom(st, r, n)
    ensures FullAfter(st, r, sid)
  {
    NextSlotFacts(st.slots, sid, n);
    var jn := SlotIndex(st.slots, n);
    forall j | 0 <= j < |st.slots| && After(st.slots, sid, st.slots[j].id)
      ensures r.slots[j].IsFull()
    {
      var x := st.slots[j].id;
      assert AtOrAfter(st.slots, n, x);
      if !After(st.slots, n, x) {
        var o := Order(st.slots, DoctorOf(st.slots, n));
        assert FindIndex(o, x) == FindIndex(o, n);
        assert x == n;
        assert SlotIds(st.slots)[j] == n;
        FindIndexDistinct(SlotIds(st.slots), j);
        assert j == jn;
      }
    }
  }

  lemma LastTurnedAway(st: Store, tid: nat, sid: nat)
    requires Consistent(st) && Waiting(st, tid) && HasSlot(st, sid)
    requires NextSlotId(st.slots, st.slots[SlotIndex(st.slots, sid)]).None?
    ensures TurnedAwayAfter(st, Waitlist(st, tid), tid, sid)
  {
    LastSlotFacts(st.slots, sid);
  }

  lemma LayoutTrans(a: seq<Slot>, b: seq<Slot>, c: seq<Slot>)
    requires SameLayout(a, b) && SameLayout(b, c)
    ensures SameLayout(a, c)
  {
  }

  lemma ShapeTrans(a: Store, b: Store, c: Store)
    requires SameShape(a, b) && SameShape(b, c)
    ensures SameShape(a, c)
  {
    LayoutTrans(a.slots, b.slots, c.slots);
    forall k | 0 <= k < |a.tokens|
      ensures c.tokens[k].(status := a.tokens[k].status, slotId := a.tokens[k].slotId) == a.tokens[k]
    {
      assert b.tokens[k].(status := a.tokens[k].status, slotId := a.tokens[k].slotId) == a.tokens[k];
    }
  }

  lemma AdmitSound(st: Store, tid: nat, sid: nat)
    requires Consistent(st) && Waiting(st, tid) && HasSlot(st, sid)
    requires !st.slots[SlotIndex(st.slots, sid)].IsFull()
    ensures CascadeFrom(st, Assign(st, tid, sid), tid, sid)
  {
    var r := Assign(st, tid, sid);
    AssignConsistent(st, tid, sid);
    SelfInOrder(st.slots, sid);
    var j := SlotIndex(st.slots, sid);
    assert st.slots[j].id == sid;
  }

  lemma PushSound(st: Store, tid: nat, sid: nat, r: Store)
    requires CascadeAfter(st, r, tid, sid)
    ensures CascadeFrom(st, r, tid, sid)
  {
  }

  /** The preconditions of the victim's cascade hold after the eviction and the
      admission, and the termination measure has not moved. */
  lemma BumpPrepared(st: Store, tid: nat, sid: nat, seat: nat)
    requires Consistent(st) && Waiting(st, tid) && HasSlot(st, sid)
    requires Decide(st, tid, sid) == Bump(seat)
    ensures var v := st.slots[SlotIndex(st.slots, sid)].tokenIds[seat];
      && 0 <= TokenIndex(st.tokens, v) && v != tid
      && Consistent(Unassign(st, v, sid)) && Waiting(Unassign(st, v, sid), tid)
      && !Unassign(st, v, sid).slots[SlotIndex(st.slots, sid)].IsFull()
      && var st2 := Assign(Unassign(st, v, sid), tid, sid);
         && Consistent(st2) && Waiting(st2, v) && HasSlot(st2, sid)
         && Seated(st2, tid, sid)
         && Remaining(st2.slots, sid) == Remaining(st.slots, sid)
  {
    var j := SlotIndex(st.slots, sid);
    var v := st.slots[j].tokenIds[seat];
    WaitingIsUnseated(st, tid);
    UnassignConsistent(st, v, sid);
    var st1 := Unassign(st, v, sid);
    var kv := TokenIndex(st.tokens, v);
    assert st1.tokens[TokenIndex(st.tokens, tid)] == st.tokens[TokenIndex(st.tokens, tid)];
    LayoutIds(st.slots, st1.slots);
    AssignConsistent(st1, tid, sid);
    var st2 := Assign(st1, tid, sid);
    LayoutIds(st1.slots, st2.slots);
    assert st2.tokens[kv] == st1.tokens[kv];
    LayoutTrans(st.slots, st1.slots, st2.slots);
    LayoutOrder(st.slots, st2.slots);
  }

  lemma BumpSound(st: Store, tid: nat, sid: nat, seat: nat, r: Store)
    requires Consistent(st) && Waiting(st, tid) && HasSlot(st, sid)
    requires Decide(st, tid, sid) == Bump(seat)
    requires var v := st.slots[SlotIndex(st.slots, sid)].tokenIds[seat];
             0 <= TokenIndex(st.tokens, v) &&
             CascadeAfter(Assign(Unassign(st, v, sid), tid, sid), r, v, sid)
    ensures CascadeFrom(st, r, tid, sid)
  {
    var j := SlotIndex(st.slots, sid);
    var v := st.slots[j].tokenIds[seat];
    BumpPrepared(st, tid, sid, seat);
    assert Seated(st, st.slots[j].tokenIds[seat], st.slots[j].id);
    BumpSoundOn(st, Unassign(st, v, sid), Assign(Unassign(st, v, sid), tid, sid), r, tid, sid, v);
  }

  /** `BumpSound` on explicit intermediate stores: after evicting `v` and admitting
      `tid`, the victim's cascade completes the newcomer's. */
  lemma BumpSoundOn(st: Store, st1: Store, st2: Store, r: Store, tid: nat, sid: nat, v: nat)
    requires Consistent(st) && Waiting(st, tid) && HasSlot(st, sid)
    requires 0 <= TokenIndex(st.tokens, v) && v != tid
    requires Seated(st, v, sid)
    requires st1 == Unassign(st, v, sid) && st2 == Assign(st1, tid, sid)
    requires Consistent(st2) && Seated(st2, tid, sid)
    requires CascadeAfter(st2, r, v, sid)
    ensures CascadeFrom(st, r, tid, sid)
  {
    var j := SlotIndex(st.slots, sid);
    var k := TokenIndex(st.tokens, tid);
    var kv := TokenIndex(st.tokens, v);
    ShapeTrans(st, st1, st2);
    ShapeTrans(st, st2, r);
    LayoutOrder(st.slots, st2.slots);
    SelfInOrder(st.slots, sid);
    assert st.slots[j].id == sid;
    // the incoming token keeps the seat it took at `sid`
    assert st2.tokens[k].slotId == Some(sid);
    assert !After(st.slots, sid, sid);
    assert r.tokens[k] == st2.tokens[k];
    forall j' | 0 <= j' < |st.slots| && !AtOrAfter(st.slots, sid, st.slots[j'].id)
      ensures r.slots[j'] == st.slots[j']
    {
      assert j' != j;
      assert st2.slots[j'] == st.slots[j'];
    }
    forall k' | 0 <= k' < |st.tokens| && st.tokens[k'].id != tid
                && !(st.tokens[k'].slotId.Some? && AtOrAfter(st.slots, sid, st.tokens[k'].slotId.value))
      ensures r.tokens[k'] == st.tokens[k']
    {
      assert k' != kv;
      assert st2.tokens[k'] == st.tokens[k'];
    }
    forall k' | 0 <= k' < |st.tokens| && r.tokens[k'] != st.tokens[k']
      ensures r.tokens[k'].status == Allocated || r.tokens[k'].status == Waitlisted
    {
      if k' != k && k' != kv {
        assert st2.tokens[k'] == st.tokens[k'];
      }
    }
  }

  lemma NextSound(st: Store, tid: nat, sid: nat, n: nat, r: Store)
    requires Consistent(st) && HasSlot(st, sid)
    requires NextSlotId(st.slots, st.slots[SlotIndex(st.slots, sid)]) == Some(n)
    requires CascadeFrom(st, r, tid, n)
    ensures CascadeAfter(st, r, tid, sid)
  {
    NextSlotFacts(st.slots, sid, n);
  }

  lemma LastSound(st: Store, tid: nat, sid: nat)
    requires Consistent(st) && Waiting(st, tid) && HasSlot(st, sid)
    ensures CascadeAfter(st, Waitlist(st, tid), tid, sid)
  {
    WaitlistConsistent(st, tid);
  }

  /** A slot with room admits the token directly: its id goes last in the slot,
      the token becomes `Allocated` there, and nothing else changes. */
  lemma AdmitDirect(st: Store, tid: nat, sid: nat)
    requires Consistent(st) && Waiting(st, tid) && HasSlot(st, sid)
    requires st.slots[SlotIndex(st.slots, sid)].CurrentCount() < st.slots[SlotIndex(st.slots, sid)].capacity
    ensures var r := TryAllocate(st, tid, sid);
            var j := SlotIndex(st.slots, sid);
            var k := TokenIndex(st.tokens, tid);
      && r.slots == st.slots[j := st.slots[j].(tokenIds := st.slots[j].tokenIds + [tid])]
      && r.tokens == st.tokens[k := st.tokens[k].(status := Allocated, slotId := Some(sid))]
      && r.doctors == st.doctors && r.idCounter == st.idCounter
  {
    var j := SlotIndex(st.slots, sid);
    WaitingIsUnseated(st, tid);
    assert tid !in st.slots[j].tokenIds;
    assert Decide(st, tid, sid) == Admit;
  }

  /** A full slot whose occupants all have a priority value no larger than the
      newcomer's (equal values included) is left exactly as it was, with every
      token it seats; the newcomer settles strictly after it, or is waitlisted
      and then every later slot of the doctor is full. */
  lemma NoBumpKeepsSlot(st: Store, tid: nat, sid: nat)
    requires Consistent(st) && Waiting(st, tid) && HasSlot(st, sid)
    requires var slot := st.slots[SlotIndex(st.slots, sid)];
             && slot.IsFull()
             && forall n :: 0 <= n < |slot.tokenIds| ==>
                  st.tokens[TokenIndex(st.tokens, slot.tokenIds[n])].priority
                  <= st.tokens[TokenIndex(st.tokens, tid)].priority
    ensures var r := TryAllocate(st, tid, sid);
            var j := SlotIndex(st.slots, sid);
      && r.slots[j] == st.slots[j]
      && (forall n :: 0 <= n < |st.slots[j].tokenIds| ==>
            var x := TokenIndex(st.tokens, st.slots[j].tokenIds[n]);
            0 <= x && r.tokens[x] == st.tokens[x])
      && SettledAfter(r, tid, st.slots, sid)
      && (r.tokens[TokenIndex(st.tokens, tid)].status == Waitlisted ==> FullAfter(st, r, sid))
  {
    var j := SlotIndex(st.slots, sid);
    var slot := st.slots[j];
    assert forall n :: 0 <= n < |slot.tokenIds| ==> Seated(st, slot.tokenIds[n], slot.id);
    var occ := Occupants(st, slot.tokenIds);
    assert forall n :: 0 <= n < |occ| ==> occ[n] == st.tokens[TokenIndex(st.tokens, slot.tokenIds[n])];
    assert Decide(st, tid, sid) == Push;
    var r := TryAllocate(st, tid, sid);
    TryAllocateTurnsAway(st, tid, sid);
    assert CascadeAfter(st, r, tid, sid);
    SelfInOrder(st.slots, sid);
    assert slot.id == sid;
    assert !After(st.slots, sid, sid);
    forall n | 0 <= n < |slot.tokenIds|
      ensures var x := TokenIndex(st.tokens, slot.tokenIds[n]); 0 <= x && r.tokens[x] == st.tokens[x]
    {
      var x := TokenIndex(st.tokens, slot.tokenIds[n]);
      assert Seated(st, slot.tokenIds[n], sid);
      assert st.tokens[x].slotId == Some(sid);
      WaitingIsUnseated(st, tid);
      assert st.tokens[x].id != tid;
    }
  }

  /** A bump replaces the victim by the newcomer in the slot (the other occupants
      keep their order), and the victim settles strictly after the slot, or is
      waitlisted and then every later slot of the doctor is full: it is never
      readmitted where it was evicted. */
  lemma BumpReplacesVictim(st: Store, tid: nat, sid: nat, seat: nat)
    requires Consistent(st) && Waiting(st, tid) && HasSlot(st, sid)
    requires Decide(st, tid, sid) == Bump(seat)
    ensures var r := TryAllocate(st, tid, sid);
            var j := SlotIndex(st.slots, sid);
            var v := st.slots[j].tokenIds[seat];
      && r.slots[j].tokenIds == st.slots[j].RemoveToken(v).tokenIds + [tid]
      && SettledAfter(r, v, st.slots, sid)
      && SettledFrom(r, tid, st.slots, sid)
      && (r.tokens[TokenIndex(st.tokens, v)].status == Waitlisted ==> FullAfter(st, r, sid))
  {
    var j := SlotIndex(st.slots, sid);
    var v := st.slots[j].tokenIds[seat];
    BumpPrepared(st, tid, sid, seat);
    assert Seated(st, v, sid) by {
      assert Seated(st, st.slots[j].tokenIds[seat], st.slots[j].id);
    }
    var st1 := Unassign(st, v, sid);
    var st2 := Assign(st1, tid, sid);
    var r := Reallocate(st2, v, sid);
    assert TryAllocate(st, tid, sid) == r;
    BumpFrame(st, st1, st2, r, tid, sid, v);
    ReallocateTurnsAway(st2, v, sid);
    VictimTurnedAway(st, st1, st2, r, tid, sid, v);
  }

  /** A victim the cascade waitlists was turned away from full later slots. */
  lemma VictimTurnedAway(st: Store, st1: Store, st2: Store, r: Store, tid: nat, sid: nat, v: nat)
    requires 0 <= TokenIndex(st.tokens, tid) && HasSlot(st, sid)
    requires 0 <= TokenIndex(st.tokens, v) && v != tid
    requires st1 == Unassign(st, v, sid) && st2 == Assign(st1, tid, sid)
    requires TurnedAwayAfter(st2, r, v, sid)
    ensures r.tokens[TokenIndex(st.tokens, v)].status == Waitlisted ==> FullAfter(st, r, sid)
  {
    var kv := TokenIndex(st.tokens, v);
    ShapeTrans(st, st1, st2);
    LayoutOrder(st.slots, st2.slots);
    assert TokenIndex(st1.tokens, tid) == TokenIndex(st.tokens, tid);
    assert TokenIndex(st2.tokens, v) == kv;
    assert st2.tokens[kv].status == Pending;
  }

  /** The slot and settlement facts of a bump, stated on its intermediate stores. */
  lemma BumpFrame(st: Store, st1: Store, st2: Store, r: Store, tid: nat, sid: nat, v: nat)
    requires Consistent(st) && Waiting(st, tid) && HasSlot(st, sid)
    requires 0 <= TokenIndex(st.tokens, v)
    requires st1 == Unassign(st, v, sid) && Waiting(st1, tid) && Consistent(st1)
    requires st2 == Assign(st1, tid, sid)
    requires CascadeAfter(st2, r, v, sid)
    ensures var j := SlotIndex(st.slots, sid);
      && r.slots[j].tokenIds == st.slots[j].RemoveToken(v).tokenIds + [tid]
      && SettledAfter(r, v, st.slots, sid)
      && SettledFrom(r, tid, st.slots, sid)
  {
    var j := SlotIndex(st.slots, sid);
    ShapeTrans(st, st1, st2);
    LayoutOrder(st.slots, st2.slots);
    SelfInOrder(st.slots, sid);
    assert st.slots[j].id == sid;
    assert !After(st.slots, sid, sid);
    assert SlotIds(st1.slots) == SlotIds(st.slots) by { LayoutIds(st.slots, st1.slots); }
    WaitingIsUnseated(st1, tid);
    assert tid !in st1.slots[j].tokenIds;
    assert r.slots[j] == st2.slots[j];
  }

  /** The engine keeps the counter invariant: it only rearranges existing ids. */
  lemma ShapeKeepsFresh(a: Store, b: Store)
    requires Fresh(a) && SameShape(a, b)
    ensures Fresh(b)
  {
    LayoutIds(a.slots, b.slots);
  }

  /** What a successful `requestToken` returns: the fresh token, with the fields of
      the request, settled at the target slot or later (or waitlisted), in a store
      that is still valid, where only the target slot and later slots of its doctor
      and the tokens seated there have changed, each ending `Allocated` or
      `Waitlisted`. */
  ghost predicate Granted(st: Store, st': Store, t: Token, slotId: nat,
                          patientName: string, source: string, now: nat) {
    && Valid(st')
    && t.id == st.idCounter
    && |st'.tokens| == |st.tokens| + 1 && st'.tokens[|st.tokens|] == t
    && TokenIndex(st'.tokens, t.id) == |st.tokens|
    && t.patientName == patientName && t.source == source && t.timestamp == now
    && PriorityFor(source) == Some(t.priority)
    && SettledFrom(st', t.id, st.slots, slotId)
    && st'.idCounter == st.idCounter + 1 && st'.doctors == st.doctors
    && SameLayout(st.slots, st'.slots)
    && SlotsKeptBefore(st, st', slotId)
    && (forall k ::
          (&& 0 <= k < |st.tokens|
           && !(st.tokens[k].slotId.Some? && AtOrAfter(st.slots, slotId, st.tokens[k].slotId.value))) ==>
          st'.tokens[k] == st.tokens[k])
    && (forall k :: 0 <= k < |st.tokens| && st'.tokens[k] != st.tokens[k] ==>
          st'.tokens[k].status == Allocated || st'.tokens[k].status == Waitlisted)
  }

  /** After a request, a `Waitlisted` token, the new one or one the cascade moved,
      means the target slot and every later slot of its doctor are full. */
  ghost predicate WaitlistedWhenFull(st: Store, st': Store, slotId: nat) {
    && |st'.tokens| == |st.tokens| + 1
    && forall k ::
         (&& 0 <= k < |st'.tokens|
          && (k == |st.tokens| || st'.tokens[k] != st.tokens[k])
          && st'.tokens[k].status == Waitlisted) ==>
         FullFrom(st, st', slotId)
  }

  /** `requestToken`: reject an unknown source, then an unknown slot, before
      anything is created; otherwise create the token and run `tryAllocate`. The
      `doctorId` argument is ignored, as in the service code: the cascade follows the
      target slot's own doctor. */
  function RequestToken(st: Store, doctorId: nat, slotId: nat, patientName: string,
                        source: string, now: nat): (r: Result<(Store, Token), Error>)
    requires Valid(st)
    ensures PriorityFor(source).None? ==> r == Err(InvalidSource)
    ensures PriorityFor(source).Some? && Slots.GetById(st.slots, slotId).None? ==> r == Err(SlotNotFound)
    ensures r.Err? ==> PriorityFor(source).None? || Slots.GetById(st.slots, slotId).None?
    ensures r.Ok? ==> Granted(st, r.value.0, r.value.1, slotId, patientName, source, now)
    ensures r.Ok? ==> WaitlistedWhenFull(st, r.value.0, slotId)
  {
    match PriorityFor(source)
    case None => Err(InvalidSource)
    case Some(p) =>
      if Slots.GetById(st.slots, slotId).None? then Err(SlotNotFound)
      else
        var (st1, t) := CreateToken(st, patientName, source, p, None, now);
        RequestPrepared(st, slotId, patientName, source, p, now);
        var st2 := TryAllocate(st1, t.id, slotId);
        RequestSound(st, st1, t, slotId, st2);
        TryAllocateTurnsAway(st1, t.id, slotId);
        RequestTurnedAway(st, st1, t, slotId, st2);
        Ok((st2, st2.tokens[|st.tokens|]))
  }

  lemma RequestPrepared(st: Store, slotId: nat, patientName: string, source: string, p: int, now: nat)
    requires Valid(st)
    requires Slots.GetById(st.slots, slotId).Some?
    ensures var (st1, t) := CreateToken(st, patientName, source, p, None, now);
      && Valid(st1) && Waiting(st1, t.id) && HasSlot(st1, slotId)
      && TokenIndex(st1.tokens, t.id) == |st.tokens|
  {
    CreateTokenValid(st, patientName, source, p, now);
    var (st1, t) := CreateToken(st, patientName, source, p, None, now);
    assert TokenIds(st1.tokens) == TokenIds(st.tokens) + [t.id];
    assert t.id !in TokenIds(st.tokens);
    FindIndexDistinct(TokenIds(st1.tokens), |st.tokens|);
  }

  lemma RequestSound(st: Store, st1: Store, t: Token, slotId: nat, st2: Store)
    requires Valid(st) && Valid(st1)
    requires st1 == st.(tokens := st.tokens + [t], idCounter := st.idCounter + 1)
    requires t.id == st.idCounter && PriorityFor(t.source) == Some(t.priority)
    requires TokenIndex(st1.tokens, t.id) == |st.tokens|
    requires CascadeFrom(st1, st2, t.id, slotId)
    ensures |st2.tokens| == |st.tokens| + 1
    ensures Granted(st, st2, st2.tokens[|st.tokens|], slotId, t.patientName, t.source, t.timestamp)
  {
    ShapeKeepsFresh(st1, st2);
    var c := |st.tokens|;
    assert TokenIds(st2.tokens) == TokenIds(st1.tokens);
    assert TokenIndex(st2.tokens, t.id) == c;
    var t2 := st2.tokens[c];
    assert t2.(status := t.status, slotId := t.slotId) == t by {
      if t2 != t {
        assert st1.tokens[c] == t;
        assert t2.status == Allocated || t2.status == Waitlisted;
      }
    }
    assert t2.priority == t.priority && t2.source == t.source;
    forall k | 0 <= k < c
      ensures st1.tokens[k] == st.tokens[k] && st1.tokens[k].id != t.id
    {
      assert TokenIds(st.tokens)[k] == st.tokens[k].id;
      assert TokenIds(st.tokens)[k] != t.id;
    }
  }

  lemma RequestTurnedAway(st: Store, st1: Store, t: Token, slotId: nat, st2: Store)
    requires st1 == st.(tokens := st.tokens + [t], idCounter := st.idCounter + 1)
    requires TokenIndex(st1.tokens, t.id) == |st.tokens|
    requires TurnedAwayFrom(st1, st2, t.id, slotId)
    ensures WaitlistedWhenFull(st, st2, slotId)
  {
    forall k | && 0 <= k < |st2.tokens|
               && (k == |st.tokens| || st2.tokens[k] != st.tokens[k])
               && st2.tokens[k].status == Waitlisted
      ensures FullFrom(st, st2, slotId)
    {
      if k < |st.tokens| {
        assert st1.tokens[k] == st.tokens[k];
      }
    }
  }

  /** The `if (token.slotId)` test: a missing slot id, or the id 0, is falsy. */
  predicate Truthy(slotId: Option<nat>) {
    slotId.Some? && slotId.value != 0
  }

  /** `fillGap`: deliberately does nothing to the store. */
  function FillGap(st: Store, sid: nat): (r: Store)
    ensures r.slots == st.slots && r.tokens == st.tokens
    ensures r.doctors == st.doctors && r.idCounter == st.idCounter
  {
    st
  }

  /** What a successful `cancelToken` does to token number `k`: it becomes
      `Cancelled`; if it named a slot it is removed from that slot and names none.
      Every other token is untouched, and so is every other slot. */
  ghost predicate CancelledIn(st: Store, st': Store, t: Token, k: int) {
    && 0 <= k < |st.tokens| && |st'.tokens| == |st.tokens| && st'.tokens[k] == t
    && var before := st.tokens[k];
    && t.status == Cancelled
    && t.(status := before.status, slotId := before.slotId) == before
    && (Truthy(before.slotId) ==> t.slotId.None?)
    && (!Truthy(before.slotId) ==> t.slotId == before.slotId)
    && (forall k' :: 0 <= k' < |st.tokens| && k' != k ==> st'.tokens[k'] == st.tokens[k'])
    && st'.doctors == st.doctors && st'.idCounter == st.idCounter
    && |st'.slots| == |st.slots|
    && (Truthy(before.slotId) ==>
          var j := SlotIndex(st.slots, before.slotId.value);
          && 0 <= j
          && st'.slots[j] == st.slots[j].RemoveToken(before.id)
          && forall j' :: 0 <= j' < |st.slots| && j' != j ==> st'.slots[j'] == st.slots[j'])
    && (!Truthy(before.slotId) ==> st'.slots == st.slots)
  }

  /** `cancelToken`: fail on an unknown id; otherwise free the token's seat if it
      has one and mark it `Cancelled`. No waitlisted token is promoted. */
  function CancelToken(st: Store, tokenId: nat): (r: Result<(Store, Token), Error>)
    ensures r == Err(TokenNotFound) <==> Tokens.GetById(st.tokens, tokenId).None?
    ensures r.Err? ==> r.error == TokenNotFound || r.error == SlotMissing
    ensures var k := TokenIndex(st.tokens, tokenId);
      r == Err(SlotMissing) <==>
        (&& 0 <= k
         && Truthy(st.tokens[k].slotId)
         && SlotIndex(st.slots, st.tokens[k].slotId.value) < 0)
    ensures r.Ok? ==> r.value.1.id == tokenId
                      && CancelledIn(st, r.value.0, r.value.1, TokenIndex(st.tokens, tokenId))
  {
    var k := TokenIndex(st.tokens, tokenId);
    if k < 0 then Err(TokenNotFound)
    else
      var t := st.tokens[k];
      if Truthy(t.slotId) then
        var sid := t.slotId.value;
        if SlotIndex(st.slots, sid) < 0 then Err(SlotMissing)
        else
          var st1 := Unassign(st, tokenId, sid);
          var t' := st1.tokens[k].UpdateStatus(Cancelled);
          Ok((FillGap(st1.(tokens := st1.tokens[k := t']), sid), t'))
      else
        var t' := t.UpdateStatus(Cancelled);
        Ok((st.(tokens := st.tokens[k := t']), t'))
  }

  /** In a valid store every slot id a token names is at least 1, so the truthiness
      test of `cancelToken` is exactly "names a slot". */
  lemma SlotIdsAreTruthy(st: Store, k: int)
    requires Valid(st) && 0 <= k < |st.tokens|
    ensures Truthy(st.tokens[k].slotId) <==> st.tokens[k].slotId.Some?
  {
    assert Placed(st, st.tokens[k]);
    if st.tokens[k].slotId.Some? {
      var j := SlotIndex(st.slots, st.tokens[k].slotId.value);
      assert SlotIds(st.slots)[j] == st.tokens[k].slotId.value;
    }
  }

  /** Giving a token that sits in no slot another unseated status keeps the store
      consistent. */
  lemma RestatusConsistent(st: Store, k: int, s: Status)
    requires Consistent(st) && 0 <= k < |st.tokens|
    requires st.tokens[k].status != Allocated && s != Allocated
    ensures Consistent(st.(tokens := st.tokens[k := st.tokens[k].UpdateStatus(s)]))
  {
    var tid := st.tokens[k].id;
    assert TokenIds(st.tokens)[k] == tid;
    FindIndexDistinct(TokenIds(st.tokens), k);
    WaitingIsUnseated(st, tid);
    var r := st.(tokens := st.tokens[k := st.tokens[k].UpdateStatus(s)]);
    SameIdsAfterUpdate(st.tokens, k, st.tokens[k].UpdateStatus(s));
    forall j', n | 0 <= j' < |r.slots| && 0 <= n < |r.slots[j'].tokenIds|
      ensures Seated(r, r.slots[j'].tokenIds[n], r.slots[j'].id)
    {
      var x := r.slots[j'].tokenIds[n];
      assert Seated(st, x, st.slots[j'].id);
      assert x != tid;
    }
    forall k' | 0 <= k' < |r.tokens|
      ensures Placed(r, r.tokens[k'])
    {
      assert Placed(st, st.tokens[k']);
    }
  }

  /** On a valid store `cancelToken` fails only for an unknown id, keeps the store
      valid, and a token that held a seat frees exactly one unit of capacity. */
  lemma CancelKeepsValid(st: Store, tokenId: nat)
    requires Valid(st)
    ensures var r := CancelToken(st, tokenId);
      && (r.Ok? || r == Err(TokenNotFound))
      && (r.Ok? ==> Valid(r.value.0))
      && (r.Ok? ==>
            var before := st.tokens[TokenIndex(st.tokens, tokenId)];
            before.slotId.Some? ==>
              var j := SlotIndex(st.slots, before.slotId.value);
              0 <= j && |r.value.0.slots[j].tokenIds| == |st.slots[j].tokenIds| - 1)
  {
    var k := TokenIndex(st.tokens, tokenId);
    if 0 <= k {
      var t := st.tokens[k];
      SlotIdsAreTruthy(st, k);
      assert Placed(st, t);
      if t.slotId.Some? {
        var sid := t.slotId.value;
        UnassignConsistent(st, tokenId, sid);
        var st1 := Unassign(st, tokenId, sid);
        assert st1.tokens[k].status == Pending;
        RestatusConsistent(st1, k, Cancelled);
        LayoutIds(st.slots, st1.slots);
      } else {
        RestatusConsistent(st, k, Cancelled);
      }
      var st' := CancelToken(st, tokenId).value.0;
      assert TokenIds(st'.tokens) == TokenIds(st.tokens);
      assert SlotIds(st'.slots) == SlotIds(st.slots);
    }
  }
}

/** The order in which the cascade walks one doctor's slots: the doctor's slots
    (`getByDoctor`), sorted by start with a stable sort, and the slot following
    the current one in that order. */
module Schedule {
  import opened Outcome
  import opened Seqs
  import opened Slots

  ghost predicate SortedByStart(s: seq<Slot>) {
    forall i, j :: 0 <= i < j < |s| ==> s[i].start <= s[j].start
  }

  /** Insert `x` before the first slot that does not start earlier, so `x` stays
      ahead of later-listed slots with an equal start. */
  function Insert(x: Slot, s: seq<Slot>): (r: seq<Slot>)
    ensures |r| == |s| + 1
    ensures multiset(r) == multiset(s) + multiset{x}
  {
    if |s| == 0 then [x]
    else if x.start <= s[0].start then [x] + s
    else
      assert s == [s[0]] + s[1..];
      [s[0]] + Insert(x, s[1..])
  }

  /** Every element of `Insert(x, s)` is `x` or an element of `s`. */
  lemma InsertMembers(x: Slot, s: seq<Slot>, i: int)
    requires 0 <= i < |Insert(x, s)|
    ensures Insert(x, s)[i] == x || Insert(x, s)[i] in s
  {
    var y := Insert(x, s)[i];
    assert y in multiset(Insert(x, s));
  }

  /** Inserting into a sorted list keeps it sorted. */
  lemma {:induction false} InsertSorted(x: Slot, s: seq<Slot>)
    requires SortedByStart(s)
    ensures SortedByStart(Insert(x, s))
  {
    if |s| != 0 && x.start > s[0].start {
      var t := s[1..];
      InsertSorted(x, t);
      var r := Insert(x, t);
      forall i | 0 <= i < |r|
        ensures s[0].start <= r[i].start
      {
        InsertMembers(x, t, i);
      }
      assert Insert(x, s) == [s[0]] + r;
    }
  }

  /** The `sort` by start time: a stable insertion sort, ascending. */
  function SortByStart(s: seq<Slot>): (r: seq<Slot>)
    ensures |r| == |s|
    ensures multiset(r) == multiset(s)
  {
    if |s| == 0 then []
    else
      assert s == [s[0]] + s[1..];
      Insert(s[0], SortByStart(s[1..]))
  }

  /** The sort's output is in ascending start order. */
  lemma {:induction false} SortSorted(s: seq<Slot>)
    ensures SortedByStart(SortByStart(s))
  {
    if |s| != 0 {
      SortSorted(s[1..]);
      InsertSorted(s[0], SortByStart(s[1..]));
    }
  }

  /** The ids of one doctor's slots in ascending start order. */
  function Order(slots: seq<Slot>, doctorId: nat): seq<nat> {
    SlotIds(SortByStart(GetByDoctor(slots, doctorId)))
  }

  /** The doctor owning slot `sid` (0 when there is no such slot). */
  function DoctorOf(slots: seq<Slot>, sid: nat): nat {
    var j := SlotIndex(slots, sid);
    if j < 0 then 0 else slots[j].doctorId
  }

  /** Slot `x` comes strictly after slot `sid` in the walk order of `sid`'s doctor. */
  ghost predicate After(slots: seq<Slot>, sid: nat, x: nat) {
    var o := Order(slots, DoctorOf(slots, sid));
    0 <= FindIndex(o, sid) < FindIndex(o, x)
  }

  /** Slot `x` is slot `sid` or comes after it in the walk order. */
  ghost predicate AtOrAfter(slots: seq<Slot>, sid: nat, x: nat) {
    var o := Order(slots, DoctorOf(slots, sid));
    0 <= FindIndex(o, sid) <= FindIndex(o, x)
  }

  /** How many slots of the doctor follow `sid`: the cascade's termination measure. */
  function Remaining(slots: seq<Slot>, sid: nat): nat {
    var o := Order(slots, DoctorOf(slots, sid));
    var a := FindIndex(o, sid);
    if a < 0 then 0 else |o| - 1 - a
  }

  /** The next slot `reallocate` tries: `sortedSlots[currentIndex + 1]`. */
  function NextSlotId(slots: seq<Slot>, current: Slot): (r: Option<nat>)
    ensures r.Some? ==> r.value in Order(slots, current.doctorId)
  {
    var o := Order(slots, current.doctorId);
    var i := FindIndex(o, current.id) + 1;
    if i < |o| then Some(o[i]) else None
  }

  /** Two slots agree on everything but their occupants. */
  predicate SameFrame(a: Slot, b: Slot) {
    a.id == b.id && a.doctorId == b.doctorId && a.start == b.start
    && a.end == b.end && a.capacity == b.capacity
  }

  /** Two slot stores differ at most in the slots' occupants. */
  ghost predicate SameLayout(a: seq<Slot>, b: seq<Slot>) {
    |a| == |b| && forall i :: 0 <= i < |a| ==> SameFrame(a[i], b[i])
  }

  lemma LayoutIds(a: seq<Slot>, b: seq<Slot>)
    requires SameLayout(a, b)
    ensures SlotIds(a) == SlotIds(b)
  {
  }

  lemma {:induction false} FilterLayout(a: seq<Slot>, b: seq<Slot>, p: Slot -> bool)
    requires SameLayout(a, b)
    requires forall i :: 0 <= i < |a| ==> p(a[i]) == p(b[i])
    ensures SameLayout(Filter(a, p), Filter(b, p))
  {
    if |a| != 0 {
      FilterLayout(a[1..], b[1..], p);
    }
  }

  lemma LayoutCons(x: Slot, y: Slot, s: seq<Slot>, t: seq<Slot>)
    requires SameFrame(x, y) && SameLayout(s, t)
    ensures SameLayout([x] + s, [y] + t)
  {
    forall i | 0 <= i < |s| + 1
      ensures SameFrame(([x] + s)[i], ([y] + t)[i])
    {
      if i > 0 {
        assert ([x] + s)[i] == s[i - 1] && ([y] + t)[i] == t[i - 1];
      }
    }
  }

  lemma {:induction false} InsertLayout(x: Slot, y: Slot, s: seq<Slot>, t: seq<Slot>)
    requires SameFrame(x, y) && SameLayout(s, t)
    ensures SameLayout(Insert(x, s), Insert(y, t))
  {
    if |s| == 0 {
      assert Insert(x, s) == [x] && Insert(y, t) == [y];
    } else if x.start <= s[0].start {
      assert Insert(x, s) == [x] + s && Insert(y, t) == [y] + t;
      LayoutCons(x, y, s, t);
    } else {
      assert Insert(x, s) == [s[0]] + Insert(x, s[1..]);
      assert Insert(y, t) == [t[0]] + Insert(y, t[1..]);
      assert SameLayout(s[1..], t[1..]);
      InsertLayout(x, y, s[1..], t[1..]);
      LayoutCons(s[0], t[0], Insert(x, s[1..]), Insert(y, t[1..]));
    }
  }

  lemma {:induction false} SortLayout(s: seq<Slot>, t: seq<Slot>)
    requires SameLayout(s, t)
    ensures SameLayout(SortByStart(s), SortByStart(t))
  {
    if |s| != 0 {
      SortLayout(s[1..], t[1..]);
      InsertLayout(s[0], t[0], SortByStart(s[1..]), SortByStart(t[1..]));
    }
  }

  /** The walk order, and so every notion built on it, ignores occupants. */
  lemma LayoutOrder(a: seq<Slot>, b: seq<Slot>)
    requires SameLayout(a, b)
    ensures forall d :: Order(a, d) == Order(b, d)
    ensures forall sid :: DoctorOf(a, sid) == DoctorOf(b, sid)
    ensures forall sid :: Remaining(a, sid) == Remaining(b, sid)
    ensures forall sid, x :: After(a, sid, x) == After(b, sid, x)
    ensures forall sid, x :: AtOrAfter(a, sid, x) == AtOrAfter(b, sid, x)
  {
    LayoutIds(a, b);
    forall d
      ensures Order(a, d) == Order(b, d)
    {
      FilterLayout(a, b, (s: Slot) => s.doctorId == d);
      SortLayout(GetByDoctor(a, d), GetByDoctor(b, d));
      LayoutIds(SortByStart(GetByDoctor(a, d)), SortByStart(GetByDoctor(b, d)));
    }
  }

  /** Every slot appears in its own doctor's walk order. */
  lemma InOwnOrder(slots: seq<Slot>, j: int)
    requires 0 <= j < |slots|
    ensures slots[j] in SortByStart(GetByDoctor(slots, slots[j].doctorId))
  {
    var g := GetByDoctor(slots, slots[j].doctorId);
    var sorted := SortByStart(g);
    assert slots[j] in g;
    assert slots[j] in multiset(g);
    assert slots[j] in multiset(sorted);
    assert slots[j] in sorted;
  }

  /** No two slots of the list share an id. */
  ghost predicate DistinctIds(s: seq<Slot>) {
    forall i, j :: 0 <= i < j < |s| ==> s[i].id != s[j].id
  }

  lemma DistinctIdsMeans(s: seq<Slot>)
    ensures DistinctIds(s) <==> Distinct(SlotIds(s))
  {
  }

  lemma DistinctIdsCons(x: Slot, r: seq<Slot>)
    requires DistinctIds(r)
    requires forall i :: 0 <= i < |r| ==> r[i].id != x.id
    ensures DistinctIds([x] + r)
  {
    forall i, j | 0 <= i < j < |r| + 1
      ensures ([x] + r)[i].id != ([x] + r)[j].id
    {
      assert ([x] + r)[j] == r[j - 1];
      if i > 0 {
        assert ([x] + r)[i] == r[i - 1];
      }
    }
  }

  lemma {:induction false} FilterIdsDistinct(s: seq<Slot>, p: Slot -> bool)
    requires DistinctIds(s)
    ensures DistinctIds(Filter(s, p))
  {
    if |s| != 0 {
      var t := s[1..];
      FilterIdsDistinct(t, p);
      var r := Filter(t, p);
      forall i | 0 <= i < |r|
        ensures r[i].id != s[0].id
      {
        assert r[i] in t;
        var k :| 0 <= k < |t| && t[k] == r[i];
        assert s[k + 1] == r[i];
      }
      if p(s[0]) {
        assert Filter(s, p) == [s[0]] + r;
        DistinctIdsCons(s[0], r);
      } else {
        assert Filter(s, p) == r;
      }
    }
  }

  lemma {:induction false} InsertIdsDistinct(x: Slot, s: seq<Slot>)
    requires DistinctIds(s)
    requires forall i :: 0 <= i < |s| ==> s[i].id != x.id
    ensures DistinctIds(Insert(x, s))
  {
    if |s| == 0 {
      assert Insert(x, s) == [x];
    } else if x.start <= s[0].start {
      assert Insert(x, s) == [x] + s;
      DistinctIdsCons(x, s);
    } else {
      var t := s[1..];
      InsertIdsDistinct(x, t);
      var r := Insert(x, t);
      forall i | 0 <= i < |r|
        ensures r[i].id != s[0].id
      {
        InsertMembers(x, t, i);
        if r[i] != x {
          var k :| 0 <= k < |t| && t[k] == r[i];
          assert s[k + 1] == r[i];
        }
      }
      assert Insert(x, s) == [s[0]] + r;
      DistinctIdsCons(s[0], r);
    }
  }

  lemma {:induction false} SortIdsDistinct(s: seq<Slot>)
    requires DistinctIds(s)
    ensures DistinctIds(SortByStart(s))
  {
    if |s| != 0 {
      var t := s[1..];
      SortIdsDistinct(t);
      var r := SortByStart(t);
      forall i | 0 <= i < |r|
        ensures r[i].id != s[0].id
      {
        assert r[i] in multiset(r);
        assert r[i] in multiset(t);
        var k :| 0 <= k < |t| && t[k] == r[i];
        assert s[k + 1] == r[i];
      }
      InsertIdsDistinct(s[0], r);
    }
  }

  /** With unique slot ids, the walk order lists each slot once, and position `i`
      holds exactly the store's slot with that id, owned by the doctor. */
  lemma OrderAt(slots: seq<Slot>, d: nat, i: int)
    requires Distinct(SlotIds(slots))
    requires 0 <= i < |Order(slots, d)|
    ensures Distinct(Order(slots, d))
    ensures var j := SlotIndex(slots, Order(slots, d)[i]);
            0 <= j && slots[j] == SortByStart(GetByDoctor(slots, d))[i] && slots[j].doctorId == d
  {
    var g := GetByDoctor(slots, d);
    var sorted := SortByStart(g);
    DistinctIdsMeans(slots);
    FilterIdsDistinct(slots, (s: Slot) => s.doctorId == d);
    SortIdsDistinct(g);
    DistinctIdsMeans(sorted);
    var y := sorted[i];
    assert y in multiset(g);
    assert y in g;
    var j0 :| 0 <= j0 < |slots| && slots[j0] == y;
    FindIndexDistinct(SlotIds(slots), j0);
  }

  /** The position of a slot in its doctor's walk order. */
  lemma PositionOf(slots: seq<Slot>, j: int)
    requires Distinct(SlotIds(slots))
    requires 0 <= j < |slots|
    ensures var o := Order(slots, slots[j].doctorId);
            var p := FindIndex(o, slots[j].id);
            0 <= p && SortByStart(GetByDoctor(slots, slots[j].doctorId))[p] == slots[j]
  {
    var d := slots[j].doctorId;
    var sorted := SortByStart(GetByDoctor(slots, d));
    InOwnOrder(slots, j);
    var i :| 0 <= i < |sorted| && sorted[i] == slots[j];
    OrderAt(slots, d, i);
    FindIndexDistinct(Order(slots, d), i);
  }

  /** A slot stands at or after itself in its doctor's walk order. */
  lemma SelfInOrder(slots: seq<Slot>, sid: nat)
    requires Distinct(SlotIds(slots))
    requires 0 <= SlotIndex(slots, sid)
    ensures AtOrAfter(slots, sid, sid)
    ensures 0 <= FindIndex(Order(slots, DoctorOf(slots, sid)), sid)
  {
    PositionOf(slots, SlotIndex(slots, sid));
  }

  /** What the cascade relies on when there is a next slot: it exists in the store,
      belongs to the same doctor, is strictly closer to the end of the walk, and the
      slots at or after it are exactly the slots after the current one. */
  lemma NextSlotFacts(slots: seq<Slot>, sid: nat, n: nat)
    requires Distinct(SlotIds(slots))
    requires 0 <= SlotIndex(slots, sid)
    requires NextSlotId(slots, slots[SlotIndex(slots, sid)]) == Some(n)
    ensures 0 <= SlotIndex(slots, n)
    ensures DoctorOf(slots, n) == DoctorOf(slots, sid)
    ensures Remaining(slots, n) < Remaining(slots, sid)
    ensures After(slots, sid, n)
    ensures forall x :: AtOrAfter(slots, n, x) <==> After(slots, sid, x)
  {
    var j := SlotIndex(slots, sid);
    var d := slots[j].doctorId;
    assert DoctorOf(slots, sid) == d;
    var o := Order(slots, d);
    SelfInOrder(slots, sid);
    var a := FindIndex(o, sid);
    assert n == o[a + 1];
    OrderAt(slots, d, a + 1);
    FindIndexDistinct(o, a + 1);
    assert DoctorOf(slots, n) == d;
    assert FindIndex(o, n) == a + 1;
  }

  /** Without a next slot, no slot comes after the current one. */
  lemma LastSlotFacts(slots: seq<Slot>, sid: nat)
    requires Distinct(SlotIds(slots))
    requires 0 <= SlotIndex(slots, sid)
    requires NextSlotId(slots, slots[SlotIndex(slots, sid)]).None?
    ensures forall x :: !After(slots, sid, x)
  {
    var j := SlotIndex(slots, sid);
    assert DoctorOf(slots, sid) == slots[j].doctorId;
  }

  /** Where slot `k` of the doctor stands relative to position `a` of the walk:
      at or before it, it starts no later; after it, no earlier. */
  lemma StartFollowsOrder(slots: seq<Slot>, d: nat, a: int, k: int)
    requires Distinct(SlotIds(slots))
    requires 0 <= a < |Order(slots, d)|
    requires 0 <= k < |slots| && slots[k].doctorId == d
    ensures var sorted := SortByStart(GetByDoctor(slots, d));
            var p := FindIndex(Order(slots, d), slots[k].id);
            && (p <= a ==> slots[k].start <= sorted[a].start)
            && (a <= p ==> sorted[a].start <= slots[k].start)
  {
    PositionOf(slots, k);
    SortSorted(GetByDoctor(slots, d));
  }

  /** `reallocate` moves to the immediately next slot in ascending start order: the
      next slot belongs to the same doctor and does not start before the current
      one, and every slot of the doctor either precedes the move (starting no later
      than the current slot) or follows it (starting no earlier than the next one). */
  lemma NextSlotIsImmediate(slots: seq<Slot>, sid: nat, n: nat)
    requires Distinct(SlotIds(slots))
    requires 0 <= SlotIndex(slots, sid)
    requires NextSlotId(slots, slots[SlotIndex(slots, sid)]) == Some(n)
    ensures 0 <= SlotIndex(slots, n)
    ensures var cur := slots[SlotIndex(slots, sid)];
            var next := slots[SlotIndex(slots, n)];
      && next.doctorId == cur.doctorId && cur.start <= next.start
      && forall k :: 0 <= k < |slots| && slots[k].doctorId == cur.doctorId ==>
           (After(slots, sid, slots[k].id) ==> next.start <= slots[k].start)
           && (!After(slots, sid, slots[k].id) ==> slots[k].start <= cur.start)
  {
    var j := SlotIndex(slots, sid);
    var cur := slots[j];
    var d := cur.doctorId;
    assert DoctorOf(slots, sid) == d;
    var o := Order(slots, d);
    var sorted := SortByStart(GetByDoctor(slots, d));
    PositionOf(slots, j);
    var a := FindIndex(o, sid);
    assert sorted[a] == cur;
    assert n == o[a + 1];
    OrderAt(slots, d, a + 1);
    var next := slots[SlotIndex(slots, n)];
    assert next == sorted[a + 1];
    SortSorted(GetByDoctor(slots, d));
    assert cur.start <= next.start;
    forall k | 0 <= k < |slots| && slots[k].doctorId == d
      ensures After(slots, sid, slots[k].id) ==> next.start <= slots[k].start
      ensures !After(slots, sid, slots[k].id) ==> slots[k].start <= cur.start
    {
      var p := FindIndex(o, slots[k].id);
      assert After(slots, sid, slots[k].id) <==> a < p;
      StartFollowsOrder(slots, d, a, k);
      StartFollowsOrder(slots, d, a + 1, k);
    }
  }

  /** With no next slot, no slot of the doctor starts after the current one. */
  lemma LastSlotIsLatest(slots: seq<Slot>, sid: nat)
    requires Distinct(SlotIds(slots))
    requires 0 <= SlotIndex(slots, sid)
    requires NextSlotId(slots, slots[SlotIndex(slots, sid)]).None?
    ensures var cur := slots[SlotIndex(slots, sid)];
      forall k :: 0 <= k < |slots| && slots[k].doctorId == cur.doctorId ==> slots[k].start <= cur.start
  {
    var j := SlotIndex(slots, sid);
    var cur := slots[j];
    var d := cur.doctorId;
    var o := Order(slots, d);
    var sorted := SortByStart(GetByDoctor(slots, d));
    PositionOf(slots, j);
    var a := FindIndex(o, sid);
    assert sorted[a] == cur;
    forall k | 0 <= k < |slots| && slots[k].doctorId == d
      ensures slots[k].start <= cur.start
    {
      StartFollowsOrder(slots, d, a, k);
    }
  }
}

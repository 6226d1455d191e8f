# OPD token allocation engine, modelled in Dafny

The system hands out appointment tokens for a doctor's time slots. Every slot has
a capacity. Every token has a priority taken from its source: Emergency 1, Paid 2,
Follow-up 3, Online 4, Walk-in 5, where a lower value is more urgent. A request
for a slot goes through these steps:

- A slot with room admits the token directly.
- A full slot picks a victim: the occupant with the largest priority value, ties
  broken by the latest timestamp. The newcomer bumps the victim only if the
  newcomer's priority value is strictly smaller.
- Whichever token loses moves on to the next slot of the same doctor, in
  ascending start order. This repeats until the token is admitted somewhere, or
  runs past the doctor's last slot and becomes `Waitlisted`.
- Cancelling a token frees its seat and marks it `Cancelled`. `fillGap` is a
  deliberate no-op, so no waiting token is promoted.

The model is functional. The in-memory store (doctor ids, slots, tokens and the
one shared id counter) is an immutable `Stores.Store` value. Every operation is a
pure function from store to store. `find`/`findIndex` become `Seqs.FindIndex` on
the list of ids, and `filter` becomes `Seqs.Filter`. `tryAllocate` and
`reallocate` are mutually recursive functions. They terminate on the
lexicographic measure (number of the doctor's slots after the current one, 1 for
`tryAllocate` / 0 for `reallocate`).

Modules, one per source file plus three helpers:

- `Outcome`: `Option` and `Result`.
- `Seqs`: `findIndex`, `filter`, distinct id lists.
- `Constants`: `constants.js`.
- `Slots`: `slot.model.js`.
- `Tokens`: `token.model.js`.
- `Stores`: `store.js`, plus the two `create` calls, which are store updates.
- `Schedule`: the slot walk of `reallocate`.
- `Allocation`: `allocation.service.js`.

The invariant every reachable store keeps is `Stores.Valid`. It has two parts:

- `Consistent`:
  - ids are unique;
  - no slot lists a token twice or holds more than its capacity;
  - every listed token is `Allocated` and names that very slot;
  - a token is `Allocated` exactly when it names a slot, and that slot exists and lists it.
- `Fresh`: every id is at least 1 and below the counter, and no two entities of
  any kind share an id.

`Reset`, `CreateSlot`, `CreateToken` with no slot (the only form the engine
calls, src/services/allocation.service.js:18), `RequestToken` and `CancelToken`
are each proved to keep it.

Three behaviours of the code the model keeps:

- A new token starts as `Waitlisted` (src/models/token.model.js:10). The engine
  places it at once, so this status is never observed after a request.
- A slot's capacity is what the slot-creation endpoint passes, `parseInt` of the
  request field (src/controllers/doctor.controller.js:27). That is an integer of
  any sign, or NaN. The model's `capacity` is an integer. The capacity invariant
  is therefore "empty, or at most the capacity", and a slot of capacity 0 or less
  stays empty forever: every request for it is pushed on. A NaN capacity behaves
  the same way in the engine and is not modelled (see "## Left out").
- `requestToken` never uses its `doctorId` argument
  (src/services/allocation.service.js:10). The cascade follows the target slot's
  own doctor.

Inputs the JavaScript code takes from the environment are parameters:

- `Date.now()` is the `timestamp` argument of `CreateToken` and the `now`
  argument of `RequestToken`.
- Slot start times are natural numbers (for example minutes since midnight),
  standing in for the `'HH:MM'` strings that `localeCompare` orders.

## Model

| member | source | states |
|---|---|---|
| Seqs.FindIndex | src/models/slot.model.js:20-22 | the lookup `find` relies on: the first position holding the id, or -1 exactly when the id is absent |
| Seqs.Filter | src/models/slot.model.js:38-40 | `filter` keeps exactly the elements satisfying the predicate, never lengthening the list |
| Seqs.FilterAppend | src/models/slot.model.js:24-26 | filtering distributes over concatenation, so the kept elements stay in their original order |
| Constants.PriorityFor | src/services/allocation.service.js:11-12 | the lookup plus truthiness test accepts a source exactly when it is one of the five `TOKEN_SOURCES` labels; the accepted values are Emergency 1, Paid 2, Follow-up 3, Online 4, Walk-in 5, all within 1..5 |
| Constants.PriorityInjective | src/config/constants.js:9-15 | two accepted sources with the same priority are the same source |
| Constants.SourcesAreThePriorityKeys | src/config/constants.js:2-15 | the `TOKEN_SOURCES` labels are exactly the keys of `PRIORITY` |
| Constants.StatusNamesDistinct | src/config/constants.js:16-22 | the five statuses are stored as five pairwise distinct strings, which are exactly the `TOKEN_STATUS` values |
| Slots.Slot.AddToken | src/models/slot.model.js:32-36 | only the occupant list changes; afterwards it holds the id, and exactly the old ids plus this one |
| Slots.Slot.RemoveToken | src/models/slot.model.js:38-40 | only the occupant list changes; the id is gone, every other id keeps its membership, and the list does not grow |
| Slots.GetById | src/models/slot.model.js:20-22 | returns nothing exactly when no slot has the id; otherwise a stored slot with that id |
| Slots.GetByDoctor | src/models/slot.model.js:24-26 | returns stored slots of that doctor only, and every stored slot of that doctor |
| Slots.GetByDoctorAppend | src/models/slot.model.js:24-26 | the result for a concatenated store is the concatenation of the results, i.e. store order is kept |
| Slots.GetByDoctorSingle | src/models/slot.model.js:24-26 | on one slot the result is that slot exactly when it belongs to the doctor, which with the previous row fixes the result |
| Slots.IsFullMeansNoRoom | src/models/slot.model.js:28-30 | `isFull` holds exactly when `getCurrentCount` is not below the capacity |
| Slots.AddTokenIdempotent | src/models/slot.model.js:32-36 | adding an id twice equals adding it once |
| Slots.AddAbsentToken | src/models/slot.model.js:32-36 | adding an absent id raises the count by one, keeps the old occupants in order and puts the id last |
| Slots.AddPresentToken | src/models/slot.model.js:32-36 | adding a present id changes nothing |
| Slots.RemoveAbsentToken | src/models/slot.model.js:38-40 | removing an absent id changes nothing |
| Slots.RemoveUndoesAdd | src/models/slot.model.js:32-40 | removing an id just added (and absent before) restores the slot |
| Slots.RemoveKeepsOrder | src/models/slot.model.js:38-40 | removal commutes with splitting the occupant list anywhere, so the other ids keep their order |
| Slots.RemovePresentToken | src/models/slot.model.js:38-44 | in a duplicate-free list, removing a present id lowers the count by exactly one and keeps the list duplicate-free |
| Tokens.Token.UpdateStatus | src/models/token.model.js:29-31 | the status becomes the argument and no other field changes |
| Tokens.GetById | src/models/token.model.js:21-23 | returns nothing exactly when no token has the id; otherwise a stored token with that id |
| Tokens.GetBySlot | src/models/token.model.js:25-27 | returns stored tokens naming that slot only, and every stored token naming it |
| Tokens.GetBySlotAppend | src/models/token.model.js:25-27 | the result for a concatenated store is the concatenation of the results |
| Tokens.GetBySlotSingle | src/models/token.model.js:25-27 | on one token the result is that token exactly when it names the slot |
| Tokens.NewTokenFields | src/models/token.model.js:4-12 | a constructed token is `Waitlisted` and every other field is exactly its argument |
| Stores.GenerateId | src/models/store.js:7-9 | returns the counter and advances it by one; in a valid store the id is at least 1 and used by no doctor, slot or token |
| Stores.IdsIncrease | src/models/store.js:7-9 | two successive ids differ by exactly one |
| Stores.Reset | src/models/store.js:11-16 | all three collections are empty, the counter is 1, and the store is valid |
| Stores.CreateSlot | src/models/slot.model.js:13-18 | the new slot has the next id, the given fields and no tokens, and is appended to the store; in a valid store `getById` then finds it |
| Stores.CreateSlotValid | src/models/slot.model.js:13-18 | creating a slot keeps the store valid |
| Stores.CreateToken | src/models/token.model.js:14-19 | the new token has the next id, status `Waitlisted` and the given fields, and is appended to the store; in a valid store `getById` then finds it |
| Stores.CreateTokenValid | src/models/token.model.js:14-19 | creating an unassigned token keeps the store valid |
| Schedule.SortByStart | src/services/allocation.service.js:82 | the sort returns a permutation of its input |
| Schedule.SortSorted | src/services/allocation.service.js:82 | the sort's output is in ascending start order |
| Schedule.NextSlotFacts | src/services/allocation.service.js:80-93 | the next slot exists, has the same doctor and comes strictly after the current one; the slots at or after it are exactly those after the current one, and fewer slots remain (the termination measure drops) |
| Schedule.LastSlotFacts | src/services/allocation.service.js:84-97 | with no next slot, no slot comes after the current one |
| Schedule.NextSlotIsImmediate | src/services/allocation.service.js:78-93 | the next slot belongs to the same doctor and does not start before the current one; every other slot of the doctor either starts no earlier than the next slot or no later than the current one |
| Schedule.LastSlotIsLatest | src/services/allocation.service.js:84-97 | when `NextSlotId` finds no next slot, no slot of the doctor starts later than the current one (the branch where `reallocate` waitlists the token at once) |
| Allocation.Occupants | src/services/allocation.service.js:24-25 | one token per listed id, in list order, each a stored token carrying that id |
| Schedule.NextSlotId | src/services/allocation.service.js:80-85 | a next slot, when there is one, is in the doctor's start-sorted walk; its position and meaning are stated by `Schedule.NextSlotFacts`, `Schedule.LastSlotFacts` and `Schedule.NextSlotIsImmediate` |
| Allocation.PickVictim | src/services/allocation.service.js:36-41 | no victim exactly when the slot is empty; otherwise no occupant outranks the victim (larger priority value, or equal value and later timestamp), and the victim outranks every occupant before it, i.e. it is what a stable sort puts first |
| Allocation.Decide | src/services/allocation.service.js:23-62 | admit exactly when the slot has room; bump only a full slot's victim, and only on a strictly smaller incoming priority value; push on exactly when the slot is full and no occupant has a larger priority value than the newcomer (equal values never bump) |
| Allocation.Assign | src/services/allocation.service.js:64-70 | its own contract states only that ids, layout and every token field other than status and slot are kept; the effect (seated, `Allocated`, consistent, appended last) is stated by `Allocation.AssignConsistent` and `Allocation.AdmitDirect` |
| Allocation.Unassign | src/services/allocation.service.js:72-76 | its own contract states only that ids, layout and token fields other than status and slot are kept; the effect (seat freed, token waiting, consistent) is stated by `Allocation.UnassignConsistent` and `Allocation.BumpReplacesVictim` |
| Allocation.Waitlist | src/services/allocation.service.js:94-97 | its own contract states only that ids, layout and token fields other than status and slot are kept; the effect is stated by `Allocation.WaitlistConsistent` and by `SettledAfter` inside `Allocation.Reallocate`'s contract (`Waitlisted` with no slot) |
| Allocation.AssignConsistent | src/services/allocation.service.js:64-70 | admitting a waiting token to a slot with room keeps the store consistent and seats the token there |
| Allocation.UnassignConsistent | src/services/allocation.service.js:72-76 | evicting an occupant keeps the store consistent, leaves it waiting, and frees exactly one seat |
| Allocation.WaitlistConsistent | src/services/allocation.service.js:94-97 | waitlisting a waiting token keeps the store consistent |
| Allocation.TryAllocate | src/services/allocation.service.js:23-62 | the cascade terminates; the store stays consistent with the same ids, layout and token fields; the token ends `Allocated` at this slot or a later slot of its doctor, or `Waitlisted` with no slot; only slots from this one on and the tokens seated there change, each ending `Allocated` or `Waitlisted` |
| Allocation.TryAllocateTurnsAway | src/services/allocation.service.js:23-62 | a token `tryAllocate` leaves `Waitlisted`, the one it places or one it moved, means this slot and every later slot of the doctor are full: a slot with room always takes the token |
| Allocation.Reallocate | src/services/allocation.service.js:78-100 | as `TryAllocate`, but strictly after the current slot, which is itself left untouched: a cascade never revisits a slot |
| Allocation.ReallocateTurnsAway | src/services/allocation.service.js:78-100 | a token `reallocate` leaves `Waitlisted` means every later slot of the doctor is full, so it waitlists at once only past the last slot |
| Allocation.OfferedToNext | src/services/allocation.service.js:84-93 | a pushed token whose next slot has room is seated in that next slot |
| Allocation.AdmitDirect | src/services/allocation.service.js:28-31 | below capacity the token is appended to the slot and becomes `Allocated` with that slot id, and nothing else in the store changes |
| Allocation.NoBumpKeepsSlot | src/services/allocation.service.js:43-60 | when no occupant of a full slot has a larger priority value, the slot and every token it seats are unchanged, and the newcomer settles strictly later, or is waitlisted and then every later slot of the doctor is full |
| Allocation.BumpReplacesVictim | src/services/allocation.service.js:43-56 | after a bump the slot holds its other occupants in order followed by the newcomer; the victim settles strictly after the slot, or is waitlisted and then every later slot of the doctor is full |
| Allocation.RequestToken | src/services/allocation.service.js:10-21 | an unknown source fails first, then an unknown slot, both before anything is created; on success the store is still valid, the returned token is the new one (next id, the request's name, source, priority and timestamp), `Allocated` to the target slot or a later slot of its doctor, or `Waitlisted`; only those slots and the tokens seated there changed; a `Waitlisted` token (the new one or one the cascade moved) means the target slot and every later slot of its doctor are full |
| Allocation.CancelToken | src/services/allocation.service.js:105-124 | fails with `TokenNotFound` exactly for an unknown id, and with `SlotMissing` exactly when the token has a truthy slot id naming no stored slot (where the source crashes); otherwise the token becomes `Cancelled`, leaves its slot and names none if it named a slot, and no other token or slot changes, since `fillGap` does nothing |
| Allocation.FillGap | src/services/allocation.service.js:126-156 | leaves slots, tokens, doctors and counter exactly as they were: no waitlisted token is promoted |
| Allocation.CancelKeepsValid | src/services/allocation.service.js:105-124 | on a valid store cancelling fails only for an unknown id, keeps the store valid, and frees exactly one seat when the token held one |
| Allocation.SlotIdsAreTruthy | src/services/allocation.service.js:109 | in a valid store a token's slot id is truthy exactly when it names a slot, because ids start at 1 |

## Left out

- The HTTP layer (`src/index.js`, routes, controllers) and its request validation: request plumbing with no allocation logic.
- `src/simulation/simulate.js`: a demo driven by `Math.random` and console output.
- `src/models/doctor.model.js` is not part of this model. The engine never consults doctor records. The store keeps only the doctors' ids, because doctors draw theirs from the shared counter.
- `Date.now()`: the timestamp is an input.
- `localeCompare` on `'HH:MM'` strings: start times are natural numbers under their usual order.
- All `console.log` calls.
- JavaScript prototype-key lookups such as `PRIORITY['constructor']`: `PRIORITY` is a closed five-key map.
- Waitlist backfill on cancellation: `fillGap` is empty in the service code, so the model's `Allocation.FillGap` returns the store unchanged, and no promotion policy is modelled.
- Concurrency: the JavaScript code is single-threaded and has no locking.
- Slots.IsFullMeansNoRoom: holds for integer capacities only. A capacity field that `parseInt` turns into NaN (a non-numeric string passes the truthiness check at src/controllers/doctor.controller.js:18) makes `isFull()` false, while `length < capacity` at src/services/allocation.service.js:28 is false as well. Such a slot is reported as not full yet never admits anyone. The engine then behaves as for a capacity of 0, so the cascade results are unaffected.
- `Slots.Slot.IsFull` and `Slots.Slot.CurrentCount` are plain predicates and functions. Their meaning is stated by `Slots.IsFullMeansNoRoom`.
- Schedule.SortByStart: stability (slots with equal start keep store order) holds by construction of the insertion sort, but is not stated as a contract. Only the permutation and ascending-order properties are proved.
- Allocation.RequestToken: requires a valid store, the invariant every store reached through `Reset`, `CreateSlot`, `CreateToken` and the engine keeps. Stores assembled by other means are not covered.
- Allocation.CancelToken: the service code crashes with a `TypeError` when a token names a slot that no longer exists. The model returns the error `SlotMissing` instead, and `Allocation.CancelKeepsValid` shows this cannot happen in a valid store.

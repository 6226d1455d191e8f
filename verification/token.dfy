/** The token record and the token-store queries. */
module Tokens {
  import opened Outcome
  import opened Seqs
  import opened Constants

  /** A prioritised request. `slotId` is `None` for the JavaScript `null`;
      `timestamp` is the creation time supplied by the caller. */
  datatype Token = Token(
    id: nat,
    patientName: string,
    source: string,
    priority: int,
    slotId: Option<nat>,
    status: Status,
    timestamp: nat)
  {
    /** `updateStatus`: set the status and nothing else. */
    function UpdateStatus(s: Status): (r: Token)
      ensures r.status == s
      ensures r.(status := status) == this
    {
      this.(status := s)
    }
  }

  /** The constructor: every field is the argument given, except the status,
      which always starts as `Waitlisted`. */
  function NewToken(id: nat, patientName: string, source: string, priority: int,
                    slotId: Option<nat>, timestamp: nat): Token
  {
    Token(id, patientName, source, priority, slotId, Waitlisted, timestamp)
  }

  /** The ids of a token list, position by position. */
  function TokenIds(tokens: seq<Token>): (r: seq<nat>)
    ensures |r| == |tokens|
    ensures forall i :: 0 <= i < |tokens| ==> r[i] == tokens[i].id
  {
    seq(|tokens|, i requires 0 <= i < |tokens| => tokens[i].id)
  }

  /** Position of the first token with this id, or -1 (`find` on the token store). */
  function TokenIndex(tokens: seq<Token>, id: nat): int {
    FindIndex(TokenIds(tokens), id)
  }

  /** `getById`: the first token carrying the id, or nothing. */
  function GetById(tokens: seq<Token>, id: nat): (r: Option<Token>)
    ensures r.None? <==> forall i :: 0 <= i < |tokens| ==> tokens[i].id != id
    ensures r.Some? ==> r.value.id == id && r.value in tokens
    ensures r.Some? ==> exists i :: 0 <= i < |tokens| && tokens[i] == r.value
                                    && forall j :: 0 <= j < i ==> tokens[j].id != id
  {
    var i := TokenIndex(tokens, id);
    if i < 0 then None
    else
      assert tokens[i].id == id;
      Some(tokens[i])
  }

  /** `getBySlot`: the tokens that name this slot, in store order. */
  function GetBySlot(tokens: seq<Token>, slotId: nat): (r: seq<Token>)
    ensures forall i :: 0 <= i < |r| ==> r[i] in tokens && r[i].slotId == Some(slotId)
    ensures forall i :: 0 <= i < |tokens| && tokens[i].slotId == Some(slotId) ==> tokens[i] in r
  {
    Filter(tokens, (t: Token) => t.slotId == Some(slotId))
  }

  /** `getBySlot` keeps store order: it distributes over concatenation of stores. */
  lemma GetBySlotAppend(a: seq<Token>, b: seq<Token>, slotId: nat)
    ensures GetBySlot(a + b, slotId) == GetBySlot(a, slotId) + GetBySlot(b, slotId)
  {
    FilterAppend(a, b, (t: Token) => t.slotId == Some(slotId));
  }

  /** On a one-token store `getBySlot` keeps the token exactly when it names the
      slot; with `GetBySlotAppend` this determines the result. */
  lemma GetBySlotSingle(t: Token, slotId: nat)
    ensures GetBySlot([t], slotId) == if t.slotId == Some(slotId) then [t] else []
  {
  }

  /** A fresh token is `Waitlisted`, not `Pending`, and carries exactly its arguments. */
  lemma NewTokenFields(id: nat, patientName: string, source: string, priority: int,
                       slotId: Option<nat>, timestamp: nat)
    ensures var t := NewToken(id, patientName, source, priority, slotId, timestamp);
      && t.status == Waitlisted && t.status != Pending
      && t.id == id && t.patientName == patientName && t.source == source
      && t.priority == priority && t.slotId == slotId && t.timestamp == timestamp
  {
  }

  /** Replacing a token by one with the same id leaves every lookup position intact. */
  lemma SameIdsAfterUpdate(tokens: seq<Token>, k: int, t: Token)
    requires 0 <= k < |tokens|
    requires t.id == tokens[k].id
    ensures TokenIds(tokens[k := t]) == TokenIds(tokens)
  {
  }
}

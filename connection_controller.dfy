/** The connection-request controller: sending a request and answering
    one. The `Connection` collection is the field `table` of
    `ConnectionStore`, in storage order; the `User` collection is a
    parameter. Request ids arrive as `IdInput`, which already says whether
    the value is missing, malformed or a well-formed ObjectId. */
module ConnectionController {
  import opened Base
  import opened ConnectionModel

  const REQUIRED_IDS_MSG: string := "Both fromUserId and toUserId are required"
  const INVALID_USER_MSG: string := "Invalid user ID format"
  const SELF_MSG: string := "Cannot send connection request to yourself"
  const NO_SENDER_MSG: string := "Sender user not found"
  const NO_RECIPIENT_MSG: string := "Recipient user not found"
  const PENDING_MSG: string := "A connection request is already pending between these users"
  const CONNECTED_MSG: string := "Users are already connected"
  const DUPLICATE_MSG: string := "Connection request already exists between these users"
  const SENT_MSG: string := "Connection request sent"
  const BAD_ACTION_MSG: string := "Action must be either \"accept\" or \"reject\""
  const INVALID_CONNECTION_MSG: string := "Invalid connection ID format"
  const NOT_FOUND_MSG: string := "Connection request not found or already processed"

  /** A response and the table it leaves behind. */
  datatype Outcome = Outcome(status: int, message: string, table: seq<Connection>)

  /** What the store keeps true: distinct ids below the next fresh id, no
      request to oneself, and at most one record per pair of users. */
  predicate ValidTable(table: seq<Connection>, nextId: int)
  {
    && UniqueIds(table)
    && AtMostOnePerPair(table)
    && (forall i :: 0 <= i < |table| ==> table[i].id < nextId)
    && (forall i :: 0 <= i < |table| ==> table[i].fromUser != table[i].toUser)
  }

  // ---------------------------------------------------------------------
  // lookups

  /** `findOne({ $or: [{ fromUser: a, toUser: b }, { fromUser: b, toUser: a }] })`:
      the first record joining the two users. */
  function FindBetween(table: seq<Connection>, a: UserId, b: UserId): (r: Option<nat>)
    ensures r.Some? ==> r.value < |table| && Between(table[r.value], a, b)
    ensures r.Some? ==> forall k :: 0 <= k < r.value ==> !Between(table[k], a, b)
    ensures r.None? ==> forall k :: 0 <= k < |table| ==> !Between(table[k], a, b)
  {
    if table == [] then None
    else if Between(table[0], a, b) then Some(0)
    else match FindBetween(table[1..], a, b)
      case None => None
      case Some(i) => Some(i + 1)
  }

  /** The record the unique `(fromUser, toUser)` index collides with, if any. */
  predicate HasOrderedPair(table: seq<Connection>, a: UserId, b: UserId)
  {
    exists k | 0 <= k < |table| :: table[k].fromUser == a && table[k].toUser == b
  }

  /** `findOne({ _id: id, toUser: caller, status: 'pending' })`. */
  predicate Answerable(c: Connection, id: int, caller: UserId)
  {
    c.id == id && c.toUser == caller && c.status == Pending
  }

  function FindAnswerable(table: seq<Connection>, id: int, caller: UserId): (r: Option<nat>)
    ensures r.Some? ==> r.value < |table| && Answerable(table[r.value], id, caller)
    ensures r.Some? ==> forall k :: 0 <= k < r.value ==> !Answerable(table[k], id, caller)
    ensures r.None? ==> forall k :: 0 <= k < |table| ==> !Answerable(table[k], id, caller)
  {
    if table == [] then None
    else if Answerable(table[0], id, caller) then Some(0)
    else match FindAnswerable(table[1..], id, caller)
      case None => None
      case Some(i) => Some(i + 1)
  }

  function RemoveAt(table: seq<Connection>, i: nat): seq<Connection>
    requires i < |table|
  {
    table[..i] + table[i + 1..]
  }

  // ---------------------------------------------------------------------
  // sendConnectionRequest

  /** `sendConnectionRequest` on `table`, where `newId` is the id the new
      record receives. The guards run in the order of the source; a
      rejected earlier request between the pair is deleted before the new
      one is created, and the create fails on the unique index if an
      ordered duplicate is still there. */
  function SendSpec(table: seq<Connection>, users: set<UserId>, from: IdInput, to: IdInput, newId: int)
    : (r: Outcome)
    ensures r.status in {201, 400, 404, 409}
    ensures r.status == 201 ==> from.Valid? && to.Valid? && r.message == SENT_MSG
    ensures r.status != 201 && r.message != DUPLICATE_MSG ==> r.table == table
  {
    if from == Absent || to == Absent then Outcome(400, REQUIRED_IDS_MSG, table)
    else if from == Malformed || to == Malformed then Outcome(400, INVALID_USER_MSG, table)
    else if from.id == to.id then Outcome(400, SELF_MSG, table)
    else if from.id !in users then Outcome(404, NO_SENDER_MSG, table)
    else if to.id !in users then Outcome(404, NO_RECIPIENT_MSG, table)
    else CreateSpec(table, from.id, to.id, newId)
  }

  /** The part of `sendConnectionRequest` after the guards: look for a
      record between `a` and `b`, refuse a pending or accepted one, delete a
      rejected one, then create the new request. */
  function CreateSpec(table: seq<Connection>, a: UserId, b: UserId, newId: int): Outcome
  {
    var existing := FindBetween(table, a, b);
    if existing.Some? && table[existing.value].status == Pending then Outcome(409, PENDING_MSG, table)
    else if existing.Some? && table[existing.value].status == Accepted then Outcome(409, CONNECTED_MSG, table)
    else
      var kept := WithoutBetween(table, a, b);
      if HasOrderedPair(kept, a, b) then Outcome(409, DUPLICATE_MSG, kept)
      else Outcome(201, SENT_MSG, kept + [NewConnection(newId, a, b)])
  }

  /** The three 400 guards run before any lookup and change nothing. */
  lemma SendInputGuards(table: seq<Connection>, users: set<UserId>, from: IdInput, to: IdInput, newId: int)
    ensures var r := SendSpec(table, users, from, to, newId);
      && (from == Absent || to == Absent ==> r == Outcome(400, REQUIRED_IDS_MSG, table))
      && (from != Absent && to != Absent && (from == Malformed || to == Malformed) ==>
            r == Outcome(400, INVALID_USER_MSG, table))
      && (from.Valid? && to.Valid? && from.id == to.id ==> r == Outcome(400, SELF_MSG, table))
  {
  }

  /** The sender is looked up first: a missing sender is reported even when
      the recipient is missing too. */
  lemma SenderCheckedFirst(table: seq<Connection>, users: set<UserId>, a: UserId, b: UserId, newId: int)
    requires a != b
    ensures a !in users ==> SendSpec(table, users, Valid(a), Valid(b), newId) == Outcome(404, NO_SENDER_MSG, table)
    ensures a in users && b !in users ==>
      SendSpec(table, users, Valid(a), Valid(b), newId) == Outcome(404, NO_RECIPIENT_MSG, table)
  {
  }

  /** In a valid table, a pending or accepted record between the two users,
      in either direction and wherever it is stored, blocks the request with
      a 409 and leaves the table alone. */
  lemma LiveRecordBlocksSend(table: seq<Connection>, users: set<UserId>, a: UserId, b: UserId, newId: int, k: nat)
    requires ValidTable(table, newId)
    requires a != b && a in users && b in users
    requires k < |table| && Between(table[k], a, b) && table[k].status != Rejected
    ensures var r := SendSpec(table, users, Valid(a), Valid(b), newId);
      r.status == 409 && r.table == table &&
      r.message == (if table[k].status == Pending then PENDING_MSG else CONNECTED_MSG)
  {
    var e := FindBetween(table, a, b);
    assert e.Some?;
    assert e.value == k;
  }

  /** The other direction: in a valid table, two distinct existing users
      with no record between them, or only a rejected one, get 201, which
      is what lets a request be sent again after a rejection. */
  lemma SendSucceedsWithoutLiveRecord(table: seq<Connection>, users: set<UserId>, a: UserId, b: UserId, newId: int)
    requires ValidTable(table, newId)
    requires a != b && a in users && b in users
    requires forall k :: 0 <= k < |table| && Between(table[k], a, b) ==> table[k].status == Rejected
    ensures SendSpec(table, users, Valid(a), Valid(b), newId).status == 201
  {
    NoDuplicateOnValidTable(table, users, Valid(a), Valid(b), newId);
  }

  /** Removing a record keeps a valid table valid and every other record. */
  lemma RemoveAtKeepsValid(table: seq<Connection>, i: nat, nextId: int)
    requires i < |table| && ValidTable(table, nextId)
    ensures ValidTable(RemoveAt(table, i), nextId)
    ensures forall c :: c in RemoveAt(table, i) ==> c in table
    ensures forall c :: c in table && c !in RemoveAt(table, i) ==> c == table[i]
  {
    var kept := RemoveAt(table, i);
    assert |kept| == |table| - 1;
    assert forall k :: 0 <= k < i ==> kept[k] == table[k];
    assert forall k :: i <= k < |kept| ==> kept[k] == table[k + 1];
    forall p, q | 0 <= p < q < |kept|
      ensures kept[p].id != kept[q].id && !Between(kept[q], kept[p].fromUser, kept[p].toUser)
    {
      var p' := if p < i then p else p + 1;
      var q' := if q < i then q else q + 1;
      assert kept[p] == table[p'] && kept[q] == table[q'] && p' < q';
    }
    forall c | c in table && c !in kept ensures c == table[i] {
      var k :| 0 <= k < |table| && table[k] == c;
    }
  }

  /** The table with the record `FindBetween` found, if any, deleted. */
  function WithoutBetween(table: seq<Connection>, a: UserId, b: UserId): seq<Connection>
  {
    match FindBetween(table, a, b)
    case None => table
    case Some(i) => RemoveAt(table, i)
  }

  /** In a valid table, deleting the record found between a pair leaves no
      record between that pair, keeps the table valid, and loses no other record. */
  lemma WithoutBetweenProperties(table: seq<Connection>, a: UserId, b: UserId, nextId: int)
    requires ValidTable(table, nextId)
    ensures var kept := WithoutBetween(table, a, b);
      && ValidTable(kept, nextId)
      && (forall k :: 0 <= k < |kept| ==> !Between(kept[k], a, b))
      && (forall c :: c in kept ==> c in table)
      && (forall c :: c in table && c !in kept ==>
            FindBetween(table, a, b).Some? && c == table[FindBetween(table, a, b).value])
  {
    var e := FindBetween(table, a, b);
    if e.Some? {
      var i := e.value;
      var kept := RemoveAt(table, i);
      RemoveAtKeepsValid(table, i, nextId);
      forall k | 0 <= k < |kept| ensures !Between(kept[k], a, b) {
        if k >= i {
          assert kept[k] == table[k + 1];
          assert !Between(table[k + 1], table[i].fromUser, table[i].toUser);
        }
      }
    }
  }

  /** The unique-index failure cannot happen on a valid table. */
  lemma NoDuplicateOnValidTable(table: seq<Connection>, users: set<UserId>, from: IdInput, to: IdInput, newId: int)
    requires ValidTable(table, newId)
    ensures SendSpec(table, users, from, to, newId).message != DUPLICATE_MSG
  {
    if from.Valid? && to.Valid? && from.id != to.id {
      WithoutBetweenProperties(table, from.id, to.id, newId);
      var kept := WithoutBetween(table, from.id, to.id);
      assert !HasOrderedPair(kept, from.id, to.id);
    }
  }

  /** The table a successful send leaves: the old one without the record
      between the pair (which was rejected), plus the new pending request. */
  lemma SendSuccessTable(table: seq<Connection>, users: set<UserId>, a: UserId, b: UserId, newId: int)
    requires SendSpec(table, users, Valid(a), Valid(b), newId).status == 201
    ensures SendSpec(table, users, Valid(a), Valid(b), newId).table
              == WithoutBetween(table, a, b) + [Connection(newId, a, b, Pending)]
    ensures FindBetween(table, a, b).Some? ==> table[FindBetween(table, a, b).value].status == Rejected
  {
  }

  /** A successful send on a valid table leaves exactly one record between
      the pair: the new pending one from the sender, stored last. Every
      other record survives except one rejected record between the pair. */
  lemma SendCreatesSinglePending(table: seq<Connection>, users: set<UserId>, a: UserId, b: UserId, newId: int)
    requires ValidTable(table, newId)
    requires SendSpec(table, users, Valid(a), Valid(b), newId).status == 201
    ensures var t := SendSpec(table, users, Valid(a), Valid(b), newId).table;
      && |t| > 0 && t[|t| - 1] == Connection(newId, a, b, Pending)
      && (forall k :: 0 <= k < |t| - 1 ==> !Between(t[k], a, b))
      && (forall c :: c in table && c !in t ==> Between(c, a, b) && c.status == Rejected)
      && (forall c :: c in t ==> c in table || c == Connection(newId, a, b, Pending))
  {
    SendSuccessTable(table, users, a, b, newId);
    WithoutBetweenProperties(table, a, b, newId);
    var kept := WithoutBetween(table, a, b);
    var t := kept + [Connection(newId, a, b, Pending)];
    assert forall k :: 0 <= k < |t| - 1 ==> t[k] == kept[k];
    forall c | c in table && c !in t ensures Between(c, a, b) && c.status == Rejected {
      assert c !in kept;
    }
  }

  /** Every send keeps a valid table valid, with the fresh id consumed on success. */
  lemma SendPreservesValid(table: seq<Connection>, users: set<UserId>, from: IdInput, to: IdInput, newId: int)
    requires ValidTable(table, newId)
    ensures var r := SendSpec(table, users, from, to, newId);
      ValidTable(r.table, if r.status == 201 then newId + 1 else newId)
  {
    NoDuplicateOnValidTable(table, users, from, to, newId);
    var r := SendSpec(table, users, from, to, newId);
    if r.status == 201 {
      var a, b := from.id, to.id;
      SendSuccessTable(table, users, a, b, newId);
      WithoutBetweenProperties(table, a, b, newId);
      AppendKeepsValid(WithoutBetween(table, a, b), Connection(newId, a, b, Pending), newId);
    }
  }

  /** Appending a record with the next id, between two different users
      that have no record yet, keeps the table valid. */
  lemma AppendKeepsValid(kept: seq<Connection>, added: Connection, newId: int)
    requires ValidTable(kept, newId)
    requires added.id == newId && added.fromUser != added.toUser
    requires forall k :: 0 <= k < |kept| ==> !Between(kept[k], added.fromUser, added.toUser)
    ensures ValidTable(kept + [added], newId + 1)
  {
    var t := kept + [added];
    forall p, q | 0 <= p < q < |t|
      ensures t[p].id != t[q].id && !Between(t[q], t[p].fromUser, t[p].toUser)
    {
      if q == |t| - 1 {
        assert t[p] == kept[p] && t[q] == added;
        assert !Between(kept[p], added.fromUser, added.toUser);
      } else {
        assert t[p] == kept[p] && t[q] == kept[q];
      }
    }
    forall i | 0 <= i < |t| ensures t[i].id < newId + 1 && t[i].fromUser != t[i].toUser {
      if i < |kept| { assert t[i] == kept[i]; }
    }
  }

  // ---------------------------------------------------------------------
  // respondToRequest

  /** `respondToRequest` by `caller` on `connectionId` with `action`: the
      action is checked first, then the id format; only the caller's own
      pending request can be answered, and only its status changes. */
  function RespondSpec(table: seq<Connection>, caller: UserId, connectionId: IdInput, action: Option<string>)
    : (r: Outcome)
    ensures r.status in {200, 400, 404}
    ensures r.status != 200 ==> r.table == table
    ensures |r.table| == |table|
  {
    if action != Some("accept") && action != Some("reject") then Outcome(400, BAD_ACTION_MSG, table)
    else if !connectionId.Valid? then Outcome(400, INVALID_CONNECTION_MSG, table)
    else match FindAnswerable(table, connectionId.id, caller)
      case None => Outcome(404, NOT_FOUND_MSG, table)
      case Some(i) =>
        var newStatus := if action == Some("accept") then Accepted else Rejected;
        Outcome(200, "Connection request " + StatusName(newStatus), table[i := table[i].(status := newStatus)])
  }

  /** An answer succeeds exactly when the action is known, the id is well
      formed and the caller has a pending request with that id; then that
      record alone changes, to accepted or rejected as asked. */
  lemma RespondAnswersOwnPending(table: seq<Connection>, caller: UserId, connectionId: IdInput, action: Option<string>)
    ensures var r := RespondSpec(table, caller, connectionId, action);
      r.status == 200 <==>
        (action == Some("accept") || action == Some("reject")) && connectionId.Valid? &&
        exists k | 0 <= k < |table| :: Answerable(table[k], connectionId.id, caller)
    ensures var r := RespondSpec(table, caller, connectionId, action);
      r.status == 200 ==>
        var newStatus := if action == Some("accept") then Accepted else Rejected;
        r.message == "Connection request " + StatusName(newStatus) &&
        exists k | 0 <= k < |table| :: Answerable(table[k], connectionId.id, caller)
          && r.table == table[k := table[k].(status := newStatus)]
  {
    var r := RespondSpec(table, caller, connectionId, action);
    if (action == Some("accept") || action == Some("reject")) && connectionId.Valid? {
      var f := FindAnswerable(table, connectionId.id, caller);
      if f.Some? {
        assert Answerable(table[f.value], connectionId.id, caller);
      }
    }
  }

  /** An unknown action is refused before anything else, with a 400. */
  lemma RespondRejectsUnknownAction(table: seq<Connection>, caller: UserId, connectionId: IdInput, action: Option<string>)
    requires action != Some("accept") && action != Some("reject")
    ensures RespondSpec(table, caller, connectionId, action) == Outcome(400, BAD_ACTION_MSG, table)
  {
  }

  /** Answering keeps a valid table valid: only a status changes. */
  lemma RespondPreservesValid(table: seq<Connection>, caller: UserId, connectionId: IdInput, action: Option<string>, nextId: int)
    requires ValidTable(table, nextId)
    ensures ValidTable(RespondSpec(table, caller, connectionId, action).table, nextId)
  {
    var t := RespondSpec(table, caller, connectionId, action).table;
    assert forall k :: 0 <= k < |t| ==>
      t[k].id == table[k].id && t[k].fromUser == table[k].fromUser && t[k].toUser == table[k].toUser;
  }

  // ---------------------------------------------------------------------
  // accepted is terminal

  /** A request to the controller. */
  datatype Request =
    | Send(users: set<UserId>, from: IdInput, to: IdInput)
    | Respond(caller: UserId, connectionId: IdInput, action: Option<string>)

  /** The table and next id after one request. */
  function Step(table: seq<Connection>, nextId: int, req: Request): (seq<Connection>, int)
  {
    match req
    case Send(users, from, to) =>
      var r := SendSpec(table, users, from, to, nextId);
      (r.table, if r.status == 201 then nextId + 1 else nextId)
    case Respond(caller, id, action) =>
      (RespondSpec(table, caller, id, action).table, nextId)
  }

  function Run(table: seq<Connection>, nextId: int, reqs: seq<Request>): (seq<Connection>, int)
    decreases |reqs|
  {
    if reqs == [] then (table, nextId)
    else var (t, n) := Step(table, nextId, reqs[0]); Run(t, n, reqs[1..])
  }

  /** One request never removes an accepted record nor changes it. */
  lemma StepKeepsAccepted(table: seq<Connection>, nextId: int, req: Request, c: Connection)
    requires ValidTable(table, nextId)
    requires c in table && c.status == Accepted
    ensures c in Step(table, nextId, req).0
    ensures ValidTable(Step(table, nextId, req).0, Step(table, nextId, req).1)
  {
    match req
    case Send(users, from, to) =>
      SendPreservesValid(table, users, from, to, nextId);
      NoDuplicateOnValidTable(table, users, from, to, nextId);
      var r := SendSpec(table, users, from, to, nextId);
      if r.status == 201 {
        SendCreatesSinglePending(table, users, from.id, to.id, nextId);
      }
    case Respond(caller, id, action) =>
      RespondPreservesValid(table, caller, id, action, nextId);
      var k :| 0 <= k < |table| && table[k] == c;
      var t := RespondSpec(table, caller, id, action).table;
      if t != table {
        var f := FindAnswerable(table, id.id, caller);
        assert f.Some? && f.value != k;
        assert t[k] == c;
      }
  }

  /** Accepted is terminal: from a valid table, no sequence of requests
      deletes an accepted record or changes its status. */
  lemma {:induction false} AcceptedIsTerminal(table: seq<Connection>, nextId: int, reqs: seq<Request>, c: Connection)
    requires ValidTable(table, nextId)
    requires c in table && c.status == Accepted
    ensures c in Run(table, nextId, reqs).0
    decreases |reqs|
  {
    if reqs != [] {
      StepKeepsAccepted(table, nextId, reqs[0], c);
      var (t, n) := Step(table, nextId, reqs[0]);
      AcceptedIsTerminal(t, n, reqs[1..], c);
    }
  }

  // ---------------------------------------------------------------------
  // the collection

  /** The `findOne` for a record between `a` and `b`, as a scan of the
      collection in storage order; `|table|` when there is none. */
  method ScanBetween(table: seq<Connection>, a: UserId, b: UserId) returns (i: nat)
    ensures i <= |table|
    ensures FindBetween(table, a, b) == if i < |table| then Some(i) else None
  {
    i := 0;
    while i < |table| && !Between(table[i], a, b)
      invariant 0 <= i <= |table|
      invariant forall k :: 0 <= k < i ==> !Between(table[k], a, b)
    {
      i := i + 1;
    }
  }

  /** The unique-index test: is the ordered pair `(a, b)` already stored? */
  method ScanOrderedPair(table: seq<Connection>, a: UserId, b: UserId) returns (found: bool)
    ensures found <==> HasOrderedPair(table, a, b)
  {
    var j := 0;
    while j < |table| && !(table[j].fromUser == a && table[j].toUser == b)
      invariant 0 <= j <= |table|
      invariant forall k :: 0 <= k < j ==> !(table[k].fromUser == a && table[k].toUser == b)
    {
      j := j + 1;
    }
    found := j < |table|;
  }

  class ConnectionStore {
    var table: seq<Connection>
    var nextId: int

    ghost predicate Valid()
      reads this
    {
      ValidTable(table, nextId)
    }

    constructor ()
      ensures Valid() && table == []
    {
      table := [];
      nextId := 0;
    }

    /** `sendConnectionRequest(fromUserId, toUserId)` against `users`. */
    method SendConnectionRequest(users: set<UserId>, from: IdInput, to: IdInput)
      returns (status: int, message: string)
      requires Valid()
      modifies this
      ensures Valid()
      ensures var r := SendSpec(old(table), users, from, to, old(nextId));
        status == r.status && message == r.message && table == r.table
      ensures nextId == if status == 201 then old(nextId) + 1 else old(nextId)
    {
      SendPreservesValid(table, users, from, to, nextId);
      if from == Absent || to == Absent {
        return 400, REQUIRED_IDS_MSG;
      }
      if from == Malformed || to == Malformed {
        return 400, INVALID_USER_MSG;
      }
      var a, b := from.id, to.id;
      if a == b {
        return 400, SELF_MSG;
      }
      if a !in users {
        return 404, NO_SENDER_MSG;
      }
      if b !in users {
        return 404, NO_RECIPIENT_MSG;
      }
      status, message := CreateRequest(a, b);
    }

    /** The lookup, the deletion of a rejected record and the create. */
    method CreateRequest(a: UserId, b: UserId) returns (status: int, message: string)
      modifies this
      ensures var r := CreateSpec(old(table), a, b, old(nextId));
        status == r.status && message == r.message && table == r.table
      ensures nextId == if status == 201 then old(nextId) + 1 else old(nextId)
    {
      var i := ScanBetween(table, a, b);
      ghost var kept := WithoutBetween(table, a, b);
      if i < |table| {
        var existing := table[i];
        if existing.status == Pending {
          return 409, PENDING_MSG;
        } else if existing.status == Accepted {
          return 409, CONNECTED_MSG;
        }
        table := table[..i] + table[i + 1..];
      }
      assert table == kept;
      var duplicate := ScanOrderedPair(table, a, b);
      if duplicate {
        return 409, DUPLICATE_MSG;
      }
      assert !HasOrderedPair(kept, a, b);
      table := table + [NewConnection(nextId, a, b)];
      nextId := nextId + 1;
      return 201, SENT_MSG;
    }

    /** `respondToRequest(connectionId, action)` by the signed-in `caller`. */
    method RespondToRequest(caller: UserId, connectionId: IdInput, action: Option<string>)
      returns (status: int, message: string)
      requires Valid()
      modifies this
      ensures Valid()
      ensures var r := RespondSpec(old(table), caller, connectionId, action);
        status == r.status && message == r.message && table == r.table
      ensures nextId == old(nextId)
    {
      RespondPreservesValid(table, caller, connectionId, action, nextId);
      if action != Some("accept") && action != Some("reject") {
        return 400, BAD_ACTION_MSG;
      }
      if !connectionId.Valid? {
        return 400, INVALID_CONNECTION_MSG;
      }
      var id := connectionId.id;
      var i := 0;
      while i < |table| && !Answerable(table[i], id, caller)
        invariant 0 <= i <= |table|
        invariant forall k :: 0 <= k < i ==> !Answerable(table[k], id, caller)
      {
        i := i + 1;
      }
      if i == |table| {
        return 404, NOT_FOUND_MSG;
      }
      var newStatus := if action == Some("accept") then Accepted else Rejected;
      table := table[i := table[i].(status := newStatus)];
      return 200, "Connection request " + StatusName(newStatus);
    }
  }
}

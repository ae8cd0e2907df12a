/** The `Connection` document: a request from one user to another whose
    status is pending until the recipient accepts or rejects it. */
module ConnectionModel {
  import opened Base

  /** The schema's `enum: ['pending', 'accepted', 'rejected']`. */
  datatype Status = Pending | Accepted | Rejected

  /** The string the database stores for a status. */
  function StatusName(s: Status): (r: string)
    ensures r in {"pending", "accepted", "rejected"}
  {
    match s
    case Pending => "pending"
    case Accepted => "accepted"
    case Rejected => "rejected"
  }

  /** Distinct statuses are stored as distinct strings. */
  lemma StatusNameInjective(s: Status, t: Status)
    requires StatusName(s) == StatusName(t)
    ensures s == t
  {
  }

  /** `fromUser` and `toUser` are required, so every record has both. */
  datatype Connection = Connection(id: int, fromUser: UserId, toUser: UserId, status: Status)

  /** `Connection.create({ fromUser, toUser })`: status defaults to pending. */
  function NewConnection(id: int, fromUser: UserId, toUser: UserId): (c: Connection)
    ensures c.status == Pending
    ensures c.id == id && c.fromUser == fromUser && c.toUser == toUser
  {
    Connection(id, fromUser, toUser, Pending)
  }

  /** `c` joins `a` and `b`, in either direction. */
  predicate Between(c: Connection, a: UserId, b: UserId)
  {
    (c.fromUser == a && c.toUser == b) || (c.fromUser == b && c.toUser == a)
  }

  /** Every record has its own `_id`. */
  predicate UniqueIds(table: seq<Connection>)
  {
    forall i, j :: 0 <= i < j < |table| ==> table[i].id != table[j].id
  }

  /** The unique compound index on `(fromUser, toUser)`. */
  predicate UniquePairs(table: seq<Connection>)
  {
    forall i, j :: 0 <= i < j < |table| ==>
      !(table[i].fromUser == table[j].fromUser && table[i].toUser == table[j].toUser)
  }

  /** The stronger invariant the controller keeps: at most one record per
      unordered pair of users. */
  predicate AtMostOnePerPair(table: seq<Connection>)
  {
    forall i, j :: 0 <= i < j < |table| ==> !Between(table[j], table[i].fromUser, table[i].toUser)
  }

  /** One record per unordered pair implies the ordered index holds. */
  lemma OnePerPairKeepsIndex(table: seq<Connection>)
    requires AtMostOnePerPair(table)
    ensures UniquePairs(table)
  {
    forall i, j | 0 <= i < j < |table|
      ensures !(table[i].fromUser == table[j].fromUser && table[i].toUser == table[j].toUser)
    {
      assert !Between(table[j], table[i].fromUser, table[i].toUser);
    }
  }

  /** The ordered index alone admits both directions of one pair. */
  lemma IndexAllowsBothDirections()
    ensures var t := [Connection(1, 10, 20, Rejected), Connection(2, 20, 10, Pending)];
      UniquePairs(t) && !AtMostOnePerPair(t)
  {
    var t := [Connection(1, 10, 20, Rejected), Connection(2, 20, 10, Pending)];
    assert Between(t[1], t[0].fromUser, t[0].toUser);
  }
}

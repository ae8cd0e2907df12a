/** The connection requests page: the received tab lists the pending
    requests, and answering one marks it as in flight until the reply
    arrives, then drops it from the list when the server accepted the
    answer. */
module ConnectionRequestsPage {
  import opened Base

  /** A request as the page holds it; only its `_id` and `status` matter here. */
  datatype PageRequest = PageRequest(id: int, status: string)

  predicate IsPending(r: PageRequest) { r.status == "pending" }

  predicate AllPending(rs: seq<PageRequest>)
  {
    forall i :: 0 <= i < |rs| ==> IsPending(rs[i])
  }

  /** The received list after loading: `(data.requests || []).filter(pending)`
      when the reply is ok (`requests` is `None` when missing), and the
      initial empty list otherwise. */
  function ReceivedList(replyOk: bool, requests: Option<seq<PageRequest>>): (r: seq<PageRequest>)
    ensures AllPending(r)
    ensures !replyOk || requests.None? ==> r == []
    ensures replyOk && requests.Some? ==> IsSubsequence(r, requests.value)
    ensures replyOk && requests.Some? ==> forall x :: x in r <==> x in requests.value && IsPending(x)
    ensures replyOk && requests.Some? ==> forall x :: multiset(r)[x] == if IsPending(x) then multiset(requests.value)[x] else 0
  {
    if !replyOk || requests.None? then []
    else
      var rs := requests.value;
      KeepIsSubsequence(rs, IsPending);
      forall x ensures x in Keep(rs, IsPending) <==> x in rs && IsPending(x) {
        KeepMembership(rs, IsPending, x);
      }
      forall x ensures multiset(Keep(rs, IsPending))[x] == if IsPending(x) then multiset(rs)[x] else 0 {
        KeepMultiplicity(rs, IsPending, x);
      }
      Keep(rs, IsPending)
  }

  /** The sent tab: `data.requests || []` on an ok reply, unfiltered. */
  function SentList(replyOk: bool, requests: Option<seq<PageRequest>>): (r: seq<PageRequest>)
    ensures replyOk && requests.Some? ==> r == requests.value
    ensures !replyOk || requests.None? ==> r == []
  {
    if replyOk && requests.Some? then requests.value else []
  }

  /** `req._id !== connectionId`. */
  predicate Other(r: PageRequest, connectionId: int) { r.id != connectionId }

  /** The page state `handleRequestResponse` touches, with the alerts shown. */
  datatype PageState = PageState(received: seq<PageRequest>, processing: set<int>, alerts: seq<string>)

  /** How the `PUT .../respond` ends: an ok reply, a reply that is not ok
      (with its `message`, `None` when missing), or a rejected `fetch` or
      unparseable body. */
  datatype Outcome = Answered | Refused(message: Option<string>) | NetworkError

  const NETWORK_ALERT := "Network error. Please try again."

  /** Before the request: the id joins the processing set. */
  function StartResponse(st: PageState, connectionId: int): (r: PageState)
    ensures r.processing == st.processing + {connectionId}
    ensures r.received == st.received && r.alerts == st.alerts
  {
    st.(processing := st.processing + {connectionId})
  }

  /** After the request: on an ok reply the answered request is removed;
      otherwise an alert is shown and the list stays; in every case
      (`finally`) the id leaves the processing set. */
  function FinishResponse(st: PageState, connectionId: int, outcome: Outcome): (r: PageState)
    ensures r.processing == st.processing - {connectionId}
    ensures outcome.Answered? ==> r.alerts == st.alerts
    ensures outcome.Answered? ==> IsSubsequence(r.received, st.received)
    ensures outcome.Answered? ==> forall x :: x in r.received <==> x in st.received && x.id != connectionId
    ensures outcome.Answered? ==> forall x :: multiset(r.received)[x] == if x.id == connectionId then 0 else multiset(st.received)[x]
    ensures !outcome.Answered? ==> r.received == st.received && |r.alerts| == |st.alerts| + 1
    ensures outcome == NetworkError ==> r.alerts == st.alerts + [NETWORK_ALERT]
  {
    var received :=
      if outcome.Answered? then
        KeepIsSubsequence(st.received, x => Other(x, connectionId));
        forall x ensures x in Keep(st.received, x => Other(x, connectionId)) <==> x in st.received && x.id != connectionId {
          KeepMembership(st.received, x => Other(x, connectionId), x);
        }
        forall x ensures multiset(Keep(st.received, x => Other(x, connectionId)))[x] == if x.id == connectionId then 0 else multiset(st.received)[x] {
          KeepMultiplicity(st.received, x => Other(x, connectionId), x);
        }
        Keep(st.received, x => Other(x, connectionId))
      else st.received;
    var alerts :=
      match outcome
      case Answered => st.alerts
      case Refused(message) => st.alerts + ["Error: " + message.GetOr("undefined")]
      case NetworkError => st.alerts + [NETWORK_ALERT];
    PageState(received, st.processing - {connectionId}, alerts)
  }

  /** `handleRequestResponse` run to completion; without a token nothing happens. */
  function Respond(st: PageState, hasToken: bool, connectionId: int, outcome: Outcome): (r: PageState)
    ensures !hasToken ==> r == st
    ensures hasToken ==> r == FinishResponse(StartResponse(st, connectionId), connectionId, outcome)
  {
    if !hasToken then st else FinishResponse(StartResponse(st, connectionId), connectionId, outcome)
  }

  /** While the reply is awaited the id is processing; once it arrived it is
      not, and every other id is exactly as it was. */
  lemma ProcessingWhileInFlight(st: PageState, connectionId: int, outcome: Outcome)
    ensures connectionId in StartResponse(st, connectionId).processing
    ensures connectionId !in Respond(st, true, connectionId, outcome).processing
    ensures forall other :: other != connectionId ==>
      (other in Respond(st, true, connectionId, outcome).processing <==> other in st.processing)
  {
  }

  /** Answering keeps the received tab a list of pending requests, and an
      ok reply removes exactly the answered request, keeping the order and
      every copy of the rest; any other ending leaves the list as it was. */
  lemma RespondKeepsPendingList(st: PageState, hasToken: bool, connectionId: int, outcome: Outcome)
    requires AllPending(st.received)
    ensures AllPending(Respond(st, hasToken, connectionId, outcome).received)
    ensures hasToken && outcome.Answered? ==>
      forall x :: x in Respond(st, hasToken, connectionId, outcome).received <==> x in st.received && x.id != connectionId
    ensures hasToken && outcome.Answered? ==>
      IsSubsequence(Respond(st, hasToken, connectionId, outcome).received, st.received)
    ensures hasToken && outcome.Answered? ==>
      forall x :: multiset(Respond(st, hasToken, connectionId, outcome).received)[x] ==
        if x.id == connectionId then 0 else multiset(st.received)[x]
    ensures !hasToken || !outcome.Answered? ==> Respond(st, hasToken, connectionId, outcome).received == st.received
  {
    var r := Respond(st, hasToken, connectionId, outcome).received;
    forall i | 0 <= i < |r| ensures IsPending(r[i]) {
      assert r[i] in r;
      if hasToken && outcome.Answered? {
        assert r[i] in st.received;
      }
    }
  }
}

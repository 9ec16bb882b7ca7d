/** The booking-request workflow: a subletter asks for a listing, the
    listing's owner approves or rejects, anyone may delete a request.

    The effect of every operation on the table is first defined on values
    (`Apply`, and `Run` for a sequence of operations), where the lemmas about
    whole histories live; `BookingRequestTable` is the table itself, whose
    methods change it in place exactly as `Apply` says. */
module BookingRequestCrud {
  import opened Records

  datatype ErrorKind = RequestAlreadyExists | RequestNotFound | Unauthorized

  /** The text of the "error" entry returned for each kind. */
  function ErrorMessage(e: ErrorKind): string {
    match e
    case RequestAlreadyExists => "Request already exists"
    case RequestNotFound => "Request not found"
    case Unauthorized => "Unauthorized"
  }

  datatype Reply<T> = Ok(value: T) | Error(kind: ErrorKind)

  /** What a lookup by id returns. */
  datatype RequestSummary = RequestSummary(listingId: int, subletterId: int)

  /** What delete returns: 200 with the id, or 404. */
  datatype DeleteReply = DeletedRequest(brId: int) | RequestMissing(brId: int) {
    function StatusCode(): int {
      if DeletedRequest? then 200 else 404
    }
  }

  /** The two e-mail addresses an approval hands out so the parties can talk. */
  datatype Contact = Contact(ownerEmail: string, requesterEmail: string)

  /** One entry of the owner's inbox: the request, a summary of its listing
      and the public fields of the requester. */
  datatype RequestView = RequestView(id: int, listingId: int, subletterId: int, status: Status, createdAt: int)
  datatype ListingView = ListingView(id: int, title: string, city: string, costPerMonth: real)
  datatype UserView = UserView(id: int, name: string, email: string)
  datatype IncomingRow = IncomingRow(request: RequestView, listing: ListingView, user: UserView)

  /** The booking_requests table as a value: its rows and the id the
      database will hand out next. */
  datatype Table = Table(requests: map<int, BookingRequest>, nextId: int)

  /** No two rows are for the same (listing, subletter) pair. */
  ghost predicate UniquePairs(reqs: map<int, BookingRequest>) {
    forall i, j :: i in reqs && j in reqs && i != j ==>
      reqs[i].listingId != reqs[j].listingId || reqs[i].subletterId != reqs[j].subletterId
  }

  /** The table's invariant: ids come from the counter, every foreign key
      (request to listing, request to user, listing to its lister) resolves,
      and each pair has at most one row. */
  ghost predicate TableValid(t: Table, listings: map<int, Listing>, users: map<int, User>) {
    && (forall id :: id in t.requests ==> id < t.nextId)
    && (forall id :: id in t.requests ==> t.requests[id].listingId in listings && t.requests[id].subletterId in users)
    && (forall lid :: lid in listings ==> listings[lid].lister in users)
    && UniquePairs(t.requests)
  }

  /** Some row, whatever its status, is for this (listing, subletter) pair. */
  predicate HasPair(reqs: map<int, BookingRequest>, listingId: int, subletterId: int) {
    exists id | id in reqs :: reqs[id].listingId == listingId && reqs[id].subletterId == subletterId
  }

  datatype Command =
    | Create(listingId: int, subletterId: int, now: int)
    | Delete(id: int)
    | Approve(id: int, ownerId: int)
    | Reject(id: int, ownerId: int)

  /** The database accepts a new request only if its foreign keys resolve. */
  predicate Enabled(c: Command, listings: map<int, Listing>, users: map<int, User>) {
    c.Create? ==> c.listingId in listings && c.subletterId in users
  }

  /** The check approve and reject share: the request must exist, and the
      caller must own its listing. None means the caller may decide. */
  function CheckOwner(reqs: map<int, BookingRequest>, listings: map<int, Listing>, reqId: int, ownerId: int): (r: Option<ErrorKind>)
    requires reqId in reqs ==> reqs[reqId].listingId in listings
    ensures r == Some(RequestNotFound) <==> reqId !in reqs
    ensures r == Some(Unauthorized) <==> reqId in reqs && listings[reqs[reqId].listingId].lister != ownerId
    ensures r == None <==> reqId in reqs && listings[reqs[reqId].listingId].lister == ownerId
  {
    if reqId !in reqs then Some(RequestNotFound)
    else if listings[reqs[reqId].listingId].lister != ownerId then Some(Unauthorized)
    else None
  }

  /** Overwrites one request's status, whatever it was, and nothing else. */
  function SetStatus(reqs: map<int, BookingRequest>, id: int, s: Status): (r: map<int, BookingRequest>)
    requires id in reqs
    ensures r.Keys == reqs.Keys
    ensures r[id].status == s
    ensures r[id].listingId == reqs[id].listingId && r[id].subletterId == reqs[id].subletterId
    ensures r[id].createdAt == reqs[id].createdAt
    ensures forall other :: other in reqs && other != id ==> r[other] == reqs[other]
  {
    reqs[id := reqs[id].(status := s)]
  }

  /** The status that command c, issued by someone, gives request id whose
      listing belongs to owner, if it sets one. */
  function DecisionOf(c: Command, id: int, owner: int): Option<Status> {
    match c
    case Approve(i, o) => if i == id && o == owner then Some(Approved) else None
    case Reject(i, o) => if i == id && o == owner then Some(Rejected) else None
    case _ => None
  }

  /** The status request id has after c when it had status s before. */
  function StatusAfter(c: Command, id: int, owner: int, s: Status): Status {
    match DecisionOf(c, id, owner)
    case Some(d) => d
    case None => s
  }

  /** One operation on the table. */
  function Apply(t: Table, listings: map<int, Listing>, users: map<int, User>, c: Command): (r: Table)
    requires TableValid(t, listings, users) && Enabled(c, listings, users)
    ensures TableValid(r, listings, users)
    ensures t.nextId <= r.nextId
    ensures r.requests.Keys <= t.requests.Keys + {t.nextId}
    ensures forall id :: id in t.requests && id in r.requests ==>
      r.requests[id] == t.requests[id].(status := StatusAfter(c, id, listings[t.requests[id].listingId].lister, t.requests[id].status))
  {
    match c
    case Create(l, s, now) =>
      if HasPair(t.requests, l, s) then t
      else Table(t.requests[t.nextId := BookingRequest(l, s, Pending, now)], t.nextId + 1)
    case Delete(id) =>
      if id in t.requests then Table(t.requests - {id}, t.nextId) else t
    case Approve(id, owner) =>
      if CheckOwner(t.requests, listings, id, owner) == None then Table(SetStatus(t.requests, id, Approved), t.nextId) else t
    case Reject(id, owner) =>
      if CheckOwner(t.requests, listings, id, owner) == None then Table(SetStatus(t.requests, id, Rejected), t.nextId) else t
  }

  /** A sequence of operations, one after another. */
  function Run(t: Table, listings: map<int, Listing>, users: map<int, User>, cmds: seq<Command>): (r: Table)
    requires TableValid(t, listings, users)
    requires forall k :: 0 <= k < |cmds| ==> Enabled(cmds[k], listings, users)
    ensures TableValid(r, listings, users)
    ensures t.nextId <= r.nextId
    decreases |cmds|
  {
    if cmds == [] then t
    else Run(Apply(t, listings, users, cmds[0]), listings, users, cmds[1..])
  }

  /** An id that shows up during a run is above every id in use before it:
      ids are never reused, even after a delete. */
  lemma {:induction false} RunNeverReusesIds(t: Table, listings: map<int, Listing>, users: map<int, User>, cmds: seq<Command>, id: int)
    requires TableValid(t, listings, users)
    requires forall k :: 0 <= k < |cmds| ==> Enabled(cmds[k], listings, users)
    requires id in Run(t, listings, users, cmds).requests && id !in t.requests
    ensures id >= t.nextId
    decreases |cmds|
  {
    if cmds != [] {
      var t1 := Apply(t, listings, users, cmds[0]);
      if id !in t1.requests {
        RunNeverReusesIds(t1, listings, users, cmds[1..], id);
      }
    }
  }

  /** The last status that the listing's owner set on request id in cmds, if any. */
  function LastDecision(cmds: seq<Command>, id: int, owner: int): Option<Status>
    decreases |cmds|
  {
    if cmds == [] then None
    else match LastDecision(cmds[1..], id, owner)
      case Some(s) => Some(s)
      case None => DecisionOf(cmds[0], id, owner)
  }

  /** Over any history, a request that survives keeps its listing, its
      subletter and its creation time, and its status is the one set by the
      last approve or reject its listing's owner issued on it (or what it was
      before if there was none). Nobody else can change it, and an approved
      or rejected request can be overwritten again: the last decision wins. */
  lemma {:induction false} StatusIsLastOwnerDecision(t: Table, listings: map<int, Listing>, users: map<int, User>, cmds: seq<Command>, id: int)
    requires TableValid(t, listings, users)
    requires forall k :: 0 <= k < |cmds| ==> Enabled(cmds[k], listings, users)
    requires id in t.requests && id in Run(t, listings, users, cmds).requests
    ensures var before := t.requests[id];
      var after := Run(t, listings, users, cmds).requests[id];
      var owner := listings[before.listingId].lister;
      && after.listingId == before.listingId
      && after.subletterId == before.subletterId
      && after.createdAt == before.createdAt
      && after.status == (match LastDecision(cmds, id, owner) case Some(s) => s case None => before.status)
    decreases |cmds|
  {
    if cmds != [] {
      var t1 := Apply(t, listings, users, cmds[0]);
      if id !in t1.requests {
        RunNeverReusesIds(t1, listings, users, cmds[1..], id);
        assert false;
      }
      StatusIsLastOwnerDecision(t1, listings, users, cmds[1..], id);
    }
  }

  /** A decision found by LastDecision was issued by some command of the history. */
  lemma {:induction false} LastDecisionIsIssued(cmds: seq<Command>, id: int, owner: int)
    requires LastDecision(cmds, id, owner) != None
    ensures exists k :: 0 <= k < |cmds| && DecisionOf(cmds[k], id, owner) == LastDecision(cmds, id, owner)
    decreases |cmds|
  {
    if LastDecision(cmds[1..], id, owner) != None {
      LastDecisionIsIssued(cmds[1..], id, owner);
      var k :| 0 <= k < |cmds[1..]| && DecisionOf(cmds[1..][k], id, owner) == LastDecision(cmds[1..], id, owner);
      assert cmds[k + 1] == cmds[1..][k];
    } else {
      assert DecisionOf(cmds[0], id, owner) == LastDecision(cmds, id, owner);
    }
  }

  /** If a request's status differs after a history, that history contains
      an approve or reject of that request by its listing's owner. */
  lemma OnlyOwnerChangesStatus(t: Table, listings: map<int, Listing>, users: map<int, User>, cmds: seq<Command>, id: int)
    requires TableValid(t, listings, users)
    requires forall k :: 0 <= k < |cmds| ==> Enabled(cmds[k], listings, users)
    requires id in t.requests && id in Run(t, listings, users, cmds).requests
    requires Run(t, listings, users, cmds).requests[id].status != t.requests[id].status
    ensures exists k :: (0 <= k < |cmds| &&
      (cmds[k] == Approve(id, listings[t.requests[id].listingId].lister) ||
       cmds[k] == Reject(id, listings[t.requests[id].listingId].lister)))
  {
    var owner := listings[t.requests[id].listingId].lister;
    StatusIsLastOwnerDecision(t, listings, users, cmds, id);
    LastDecisionIsIssued(cmds, id, owner);
    var k :| 0 <= k < |cmds| && DecisionOf(cmds[k], id, owner) == LastDecision(cmds, id, owner);
    assert cmds[k] == Approve(id, owner) || cmds[k] == Reject(id, owner);
  }

  /** The booking_requests table, next to read-only views of the listings
      and users tables it refers to. */
  class BookingRequestTable {
    var requests: map<int, BookingRequest>
    var nextId: int
    const listings: map<int, Listing>
    const users: map<int, User>

    ghost predicate Valid()
      reads this
    {
      TableValid(Table(requests, nextId), listings, users)
    }

    constructor (listings0: map<int, Listing>, users0: map<int, User>)
      requires forall lid :: lid in listings0 ==> listings0[lid].lister in users0
      ensures Valid()
      ensures requests == map[] && nextId == 1 && listings == listings0 && users == users0
    {
      requests := map[];
      nextId := 1;
      listings := listings0;
      users := users0;
    }

    /** get_booking_request_by_id: nothing for an unknown id, otherwise that
        row's listing and subletter. */
    function GetBookingRequestById(id: int): (r: Option<RequestSummary>)
      reads this
      ensures r == None <==> id !in requests
      ensures r != None ==> r.value.listingId == requests[id].listingId && r.value.subletterId == requests[id].subletterId
    {
      if id in requests then Some(RequestSummary(requests[id].listingId, requests[id].subletterId)) else None
    }

    /** create_booking_request: refused when any row, whatever its status,
        is already for this pair; otherwise one pending row is added under a
        fresh id and nothing else changes. */
    method CreateBookingRequest(listingId: int, subletterId: int, now: int) returns (r: Reply<int>)
      requires Valid() && listingId in listings && subletterId in users
      modifies this
      ensures Valid()
      ensures Table(requests, nextId) == Apply(old(Table(requests, nextId)), listings, users, Create(listingId, subletterId, now))
      ensures old(HasPair(requests, listingId, subletterId)) ==>
        && r == Error(RequestAlreadyExists) && ErrorMessage(r.kind) == "Request already exists"
        && requests == old(requests) && nextId == old(nextId)
      ensures !old(HasPair(requests, listingId, subletterId)) ==>
        && r == Ok(old(nextId)) && old(nextId) !in old(requests)
        && requests == old(requests)[old(nextId) := BookingRequest(listingId, subletterId, Pending, now)]
    {
      if HasPair(requests, listingId, subletterId) {
        return Error(RequestAlreadyExists);
      }
      r := Ok(nextId);
      requests := requests[nextId := BookingRequest(listingId, subletterId, Pending, now)];
      nextId := nextId + 1;
    }

    /** delete_booking_request: 404 and no change for an unknown id;
        otherwise exactly that row is removed and 200 comes back with its id. */
    method DeleteBookingRequest(brId: int) returns (r: DeleteReply)
      requires Valid()
      modifies this
      ensures Valid() && nextId == old(nextId)
      ensures Table(requests, nextId) == Apply(old(Table(requests, nextId)), listings, users, Delete(brId))
      ensures brId !in old(requests) ==> r == RequestMissing(brId) && r.StatusCode() == 404 && requests == old(requests)
      ensures brId in old(requests) ==>
        r == DeletedRequest(brId) && r.StatusCode() == 200 && requests == old(requests) - {brId}
    {
      if brId !in requests {
        return RequestMissing(brId);
      }
      requests := requests - {brId};
      r := DeletedRequest(brId);
    }

    /** Request id is pending, on a listing that ownerId owns, and from a
        subletter who is a user: the rows the inbox query joins. */
    predicate IsIncoming(id: int, ownerId: int)
      reads this
    {
      && id in requests
      && requests[id].status == Pending
      && requests[id].listingId in listings
      && listings[requests[id].listingId].lister == ownerId
      && requests[id].subletterId in users
    }

    /** The inbox entry for request id: the listing is the request's listing
        and the user is its subletter. */
    function RowFor(id: int): (row: IncomingRow)
      reads this
      requires id in requests && requests[id].listingId in listings && requests[id].subletterId in users
      ensures row.request.id == id && row.listing.id == row.request.listingId && row.user.id == row.request.subletterId
      ensures var req := requests[id];
        && row.request.listingId == req.listingId && row.request.subletterId == req.subletterId
        && row.request.status == req.status && row.request.createdAt == req.createdAt
      ensures var l := listings[requests[id].listingId];
        row.listing.title == l.title && row.listing.city == l.city && row.listing.costPerMonth == l.costPerMonth
      ensures var u := users[requests[id].subletterId];
        row.user.name == u.name && row.user.email == u.email
    {
      var req := requests[id];
      var l := listings[req.listingId];
      var u := users[req.subletterId];
      IncomingRow(
        RequestView(id, req.listingId, req.subletterId, req.status, req.createdAt),
        ListingView(req.listingId, l.title, l.city, l.costPerMonth),
        UserView(req.subletterId, u.name, u.email))
    }

    /** get_incoming_requests: one entry per pending request on the owner's
        listings, each exactly once, in no particular order. */
    method IncomingRequests(ownerId: int) returns (out: seq<IncomingRow>)
      ensures forall row :: row in out ==> IsIncoming(row.request.id, ownerId) && row == RowFor(row.request.id)
      ensures forall id :: IsIncoming(id, ownerId) ==> exists row :: row in out && row.request.id == id
      ensures forall i, j :: 0 <= i < j < |out| ==> out[i].request.id != out[j].request.id
    {
      var rows := set id | id in requests && IsIncoming(id, ownerId);
      var remaining := rows;
      out := [];
      while remaining != {}
        invariant remaining <= rows
        invariant forall row :: row in out ==> row.request.id in rows - remaining && row == RowFor(row.request.id)
        invariant forall id :: id in rows - remaining ==> exists row :: row in out && row.request.id == id
        invariant forall i, j :: 0 <= i < j < |out| ==> out[i].request.id != out[j].request.id
        decreases |remaining|
      {
        NonEmptyHasMember(remaining);
        var id :| id in remaining;
        var row := RowFor(id);
        ghost var before, remainingBefore := out, remaining;
        out := out + [row];
        remaining := remaining - {id};
        assert out[|out| - 1] == row;
        forall id' | id' in rows - remaining
          ensures exists row' :: row' in out && row'.request.id == id'
        {
          if id' != id {
            assert id' in rows - remainingBefore;
            var row' :| row' in before && row'.request.id == id';
            assert row' in out;
          }
        }
      }
      assert rows - remaining == rows;
      forall id | IsIncoming(id, ownerId)
        ensures exists row :: row in out && row.request.id == id
      {
        assert id in rows;
      }
    }

    /** approve_request: "Request not found" or "Unauthorized" with no
        change, or the status becomes approved (whatever it was) and both
        parties' e-mail addresses come back. */
    method ApproveRequest(reqId: int, ownerId: int) returns (r: Reply<Contact>)
      requires Valid()
      modifies this
      ensures Valid() && nextId == old(nextId)
      ensures Table(requests, nextId) == Apply(old(Table(requests, nextId)), listings, users, Approve(reqId, ownerId))
      ensures reqId !in old(requests) ==> r.Error? && ErrorMessage(r.kind) == "Request not found"
      ensures reqId in old(requests) && listings[old(requests)[reqId].listingId].lister != ownerId ==>
        r.Error? && ErrorMessage(r.kind) == "Unauthorized"
      ensures CheckOwner(old(requests), listings, reqId, ownerId) != None ==>
        r == Error(CheckOwner(old(requests), listings, reqId, ownerId).value) && requests == old(requests)
      ensures CheckOwner(old(requests), listings, reqId, ownerId) == None ==>
        && requests == SetStatus(old(requests), reqId, Approved)
        && ownerId in users
        && r == Ok(Contact(users[ownerId].email, users[old(requests)[reqId].subletterId].email))
    {
      var check := CheckOwner(requests, listings, reqId, ownerId);
      if check != None {
        return Error(check.value);
      }
      var requesterId := requests[reqId].subletterId;
      requests := SetStatus(requests, reqId, Approved);
      r := Ok(Contact(users[ownerId].email, users[requesterId].email));
    }

    /** reject_request: the same refusals as approve, or the status becomes
        rejected (whatever it was) and `ok` comes back. */
    method RejectRequest(reqId: int, ownerId: int) returns (r: Reply<()>)
      requires Valid()
      modifies this
      ensures Valid() && nextId == old(nextId)
      ensures Table(requests, nextId) == Apply(old(Table(requests, nextId)), listings, users, Reject(reqId, ownerId))
      ensures reqId !in old(requests) ==> r.Error? && ErrorMessage(r.kind) == "Request not found"
      ensures reqId in old(requests) && listings[old(requests)[reqId].listingId].lister != ownerId ==>
        r.Error? && ErrorMessage(r.kind) == "Unauthorized"
      ensures CheckOwner(old(requests), listings, reqId, ownerId) != None ==>
        r == Error(CheckOwner(old(requests), listings, reqId, ownerId).value) && requests == old(requests)
      ensures CheckOwner(old(requests), listings, reqId, ownerId) == None ==>
        requests == SetStatus(old(requests), reqId, Rejected) && r == Ok(())
    {
      var check := CheckOwner(requests, listings, reqId, ownerId);
      if check != None {
        return Error(check.value);
      }
      requests := SetStatus(requests, reqId, Rejected);
      r := Ok(());
    }
  }
}

/** The ticket handlers of Backend/controllers/ticket.js: creation with its
    "ticket/created" event, the role-dependent listing and single fetch, and the
    moderator-only status update.

    The ticket schema is not part of this model: a ticket carries the paths the handlers
    read or write, its id comes from a counter, and the status a new ticket starts with
    is a parameter of the store. The caller is the payload of a verified token: an id and
    a role string. */
module TicketController {
  import opened JsValues
  import opened HttpReply
  import UserModel

  /** A populated `assignedTo`: the assignee's `_id` and `email`. */
  datatype Assignee = Assignee(id: string, email: string)

  datatype Ticket = Ticket(
    id: nat,
    title: string,
    description: string,
    createdBy: string,
    status: string,
    createdAt: int,
    assignedTo: Option<Assignee>)

  /** The payload of `inngest.send`. */
  datatype Event = Event(name: string, ticketId: nat, title: string, description: string,
                         createdBy: string)

  /** `req.user`. */
  datatype Caller = Caller(id: string, role: string)

  /** One listed ticket. Staff see the whole document; a plain user sees what
      `select("title description status createdAt assignedTo")` keeps, which includes
      `_id` but not `createdBy`. */
  datatype Listing =
    | Full(ticket: Ticket)
    | Own(id: nat, title: string, description: string, status: string, createdAt: int,
          assignedTo: Option<Assignee>)
  {
    function CreatedAt(): int
    {
      match this
      case Full(t) => t.createdAt
      case Own(_, _, _, _, c, _) => c
    }
  }

  const CreatedEvent := "ticket/created"

  // ---------------------------------------------------------------- roles

  /** The listing and the single fetch test `role !== "user"`. */
  predicate SeesAllTickets(role: string)
  {
    role != "user"
  }

  /** The status update tests `['moderator', 'admin'].includes(role)`. */
  predicate MayUpdateStatus(role: string)
  {
    role in ["moderator", "admin"]
  }

  /** For the three role names of the user schema the two tests agree with the role: only
      a plain user is restricted. For any other string they part: such a caller sees every
      ticket but may update none. */
  lemma RoleChecksAgreeOnSchemaRoles(role: string)
    ensures UserModel.ParseRole(role).Some? ==>
              (SeesAllTickets(role) <==> MayUpdateStatus(role))
              && (SeesAllTickets(role) <==> UserModel.ParseRole(role) != Some(UserModel.PlainUser))
    ensures UserModel.ParseRole(role).None? ==> SeesAllTickets(role) && !MayUpdateStatus(role)
  {
  }

  // ---------------------------------------------------------------- listing

  /** The tickets a caller may list: all of them for staff, the caller's own otherwise. */
  function Visible(tickets: seq<Ticket>, caller: Caller): seq<Ticket>
  {
    if SeesAllTickets(caller.role) then tickets
    else if tickets == [] then []
    else
      var rest := Visible(tickets[1..], caller);
      if tickets[0].createdBy == caller.id then [tickets[0]] + rest else rest
  }

  /** Staff see the stored sequence itself; a plain user sees each of their own tickets
      as often as it is stored, and no other. */
  lemma {:induction false} VisibleCounts(tickets: seq<Ticket>, caller: Caller)
    ensures SeesAllTickets(caller.role) ==> Visible(tickets, caller) == tickets
    ensures !SeesAllTickets(caller.role) ==>
              forall t :: multiset(Visible(tickets, caller))[t]
                          == if t.createdBy == caller.id then multiset(tickets)[t] else 0
    decreases |tickets|
  {
    if tickets != [] && !SeesAllTickets(caller.role) {
      VisibleCounts(tickets[1..], caller);
      assert tickets == [tickets[0]] + tickets[1..];
    }
  }

  function View(t: Ticket, caller: Caller): Listing
  {
    if SeesAllTickets(caller.role) then Full(t)
    else Own(t.id, t.title, t.description, t.status, t.createdAt, t.assignedTo)
  }

  function Views(tickets: seq<Ticket>, caller: Caller): (r: seq<Listing>)
    ensures |r| == |tickets|
    ensures forall i :: 0 <= i < |tickets| ==> r[i] == View(tickets[i], caller)
  {
    if tickets == [] then [] else [View(tickets[0], caller)] + Views(tickets[1..], caller)
  }

  predicate NewestFirst(s: seq<Listing>)
  {
    forall i, j :: 0 <= i < j < |s| ==> s[i].CreatedAt() >= s[j].CreatedAt()
  }

  /** Puts `x` before the first listing that is not newer than it. */
  function InsertByDate(x: Listing, s: seq<Listing>): (r: seq<Listing>)
    requires NewestFirst(s)
    ensures NewestFirst(r)
    ensures multiset(r) == multiset(s) + multiset{x}
    ensures r != [] && (r[0] == x || (s != [] && r[0] == s[0]))
  {
    if s == [] || x.CreatedAt() >= s[0].CreatedAt() then [x] + s
    else
      var rest := InsertByDate(x, s[1..]);
      assert s == [s[0]] + s[1..];
      [s[0]] + rest
  }

  /** `sort({ createdAt: -1 })`. Listings with equal dates keep their stored order. */
  function SortNewestFirst(s: seq<Listing>): (r: seq<Listing>)
    ensures NewestFirst(r)
    ensures multiset(r) == multiset(s)
  {
    if s == [] then []
    else
      assert s == [s[0]] + s[1..];
      InsertByDate(s[0], SortNewestFirst(s[1..]))
  }

  /** `getTickets`: the visible tickets, projected for the caller's role, newest first. */
  function GetTickets(tickets: seq<Ticket>, caller: Caller): (r: seq<Listing>)
    ensures NewestFirst(r)
    ensures multiset(r) == multiset(Views(Visible(tickets, caller), caller))
  {
    SortNewestFirst(Views(Visible(tickets, caller), caller))
  }

  /** Staff get every stored ticket, whole; a plain user gets exactly the tickets they
      created, each as many times as it is stored, and never a document with its creator. */
  lemma GetTicketsByRole(tickets: seq<Ticket>, caller: Caller)
    ensures SeesAllTickets(caller.role) ==>
              forall t :: multiset(GetTickets(tickets, caller))[Full(t)] == multiset(tickets)[t]
    ensures !SeesAllTickets(caller.role) ==>
              forall x :: x in GetTickets(tickets, caller) ==> x.Own?
    ensures !SeesAllTickets(caller.role) ==>
              forall t :: t in tickets && t.createdBy == caller.id ==>
                View(t, caller) in GetTickets(tickets, caller)
    ensures !SeesAllTickets(caller.role) ==>
              forall x :: x in GetTickets(tickets, caller) ==>
                exists t :: t in tickets && t.createdBy == caller.id && x == View(t, caller)
  {
    var vis := Visible(tickets, caller);
    var vs := Views(vis, caller);
    var r := GetTickets(tickets, caller);
    VisibleCounts(tickets, caller);
    assert forall x :: x in r <==> x in multiset(vs);
    if SeesAllTickets(caller.role) {
      forall t ensures multiset(r)[Full(t)] == multiset(tickets)[t] {
        FullCount(tickets, caller, t);
      }
    } else {
      forall t | t in tickets && t.createdBy == caller.id ensures View(t, caller) in r {
        assert multiset(vis)[t] > 0;
        var i :| 0 <= i < |vis| && vis[i] == t;
        assert vs[i] == View(t, caller);
      }
      forall x | x in r
        ensures exists t :: t in tickets && t.createdBy == caller.id && x == View(t, caller)
      {
        var i :| 0 <= i < |vs| && vs[i] == x;
        assert vis[i] in multiset(vis);
        assert vis[i] in tickets;
      }
    }
  }

  /** Wrapping every ticket of a staff listing keeps the count of each ticket. */
  lemma {:induction false} FullCount(tickets: seq<Ticket>, caller: Caller, t: Ticket)
    requires SeesAllTickets(caller.role)
    ensures multiset(Views(tickets, caller))[Full(t)] == multiset(tickets)[t]
    decreases |tickets|
  {
    if tickets != [] {
      FullCount(tickets[1..], caller, t);
      assert tickets == [tickets[0]] + tickets[1..];
      assert Views(tickets, caller) == [Full(tickets[0])] + Views(tickets[1..], caller);
    }
  }

  // ---------------------------------------------------------------- single fetch

  /** The first stored ticket with that id. */
  function FindById(tickets: seq<Ticket>, id: nat): (r: Option<Ticket>)
    ensures r.Some? ==> r.value in tickets && r.value.id == id
    ensures r.None? ==> forall t :: t in tickets ==> t.id != id
  {
    if tickets == [] then None
    else if tickets[0].id == id then Some(tickets[0])
    else FindById(tickets[1..], id)
  }

  /** `getTicket`: `findById` for staff, `findOne({ createdBy, _id })` for a plain user;
      None is the 404 "Ticket not found". Both populate `assignedTo` and select nothing,
      so the document comes back whole. */
  function GetTicket(tickets: seq<Ticket>, caller: Caller, id: nat): (r: Option<Ticket>)
    ensures r.Some? ==> r.value in tickets && r.value.id == id
    ensures r.Some? && !SeesAllTickets(caller.role) ==> r.value.createdBy == caller.id
    ensures r.None? ==> forall t :: t in tickets && t.id == id ==>
                          !SeesAllTickets(caller.role) && t.createdBy != caller.id
  {
    VisibleCounts(tickets, caller);
    var r := FindById(Visible(tickets, caller), id);
    assert r.Some? ==> multiset(Visible(tickets, caller))[r.value] > 0;
    r
  }

  /** A plain user asking for someone else's ticket gets the same answer as for an id
      that does not exist: what they get depends on their own tickets only. */
  lemma GetTicketDependsOnOwnTicketsOnly(tickets: seq<Ticket>, others: seq<Ticket>, caller: Caller, id: nat)
    requires !SeesAllTickets(caller.role)
    requires forall t :: t in others ==> t.createdBy != caller.id
    ensures GetTicket(tickets + others, caller, id) == GetTicket(tickets, caller, id)
    ensures GetTicket(others, caller, id) == None
  {
    VisibleOfOthers(others, caller);
    VisibleAppend(tickets, others, caller);
    assert Visible(tickets, caller) + [] == Visible(tickets, caller);
  }

  lemma {:induction false} VisibleOfOthers(others: seq<Ticket>, caller: Caller)
    requires !SeesAllTickets(caller.role)
    requires forall t :: t in others ==> t.createdBy != caller.id
    ensures Visible(others, caller) == []
    decreases |others|
  {
    if others != [] {
      assert others[0] in others;
      VisibleOfOthers(others[1..], caller);
    }
  }

  lemma {:induction false} VisibleAppend(a: seq<Ticket>, b: seq<Ticket>, caller: Caller)
    ensures Visible(a + b, caller) == Visible(a, caller) + Visible(b, caller)
    decreases |a|
  {
    if a != [] && !SeesAllTickets(caller.role) {
      VisibleAppend(a[1..], b, caller);
      assert (a + b)[1..] == a[1..] + b;
    } else if a == [] {
      assert a + b == b;
    }
  }

  // ---------------------------------------------------------------- the running store

  /** Every event names a stored ticket and carries its title, description and creator. */
  ghost predicate EventOf(e: Event, tickets: seq<Ticket>)
  {
    exists i :: 0 <= i < |tickets| && tickets[i].id == e.ticketId && e.name == CreatedEvent
      && tickets[i].title == e.title && tickets[i].description == e.description
      && tickets[i].createdBy == e.createdBy
  }

  /** The `Ticket` collection and the events sent to the triage worker. */
  class TicketStore {
    var tickets: seq<Ticket>
    var outbox: seq<Event>
    var nextId: nat
    const initialStatus: string

    /** Ids grow in storage order and stay below the counter; every event belongs to a
        stored ticket, at most one per ticket. */
    ghost predicate Valid()
      reads this
    {
      && (forall i, j :: 0 <= i < j < |tickets| ==> tickets[i].id < tickets[j].id)
      && (forall i :: 0 <= i < |tickets| ==> tickets[i].id < nextId)
      && (forall k :: 0 <= k < |outbox| ==> EventOf(outbox[k], tickets))
      && (forall k, l :: 0 <= k < l < |outbox| ==> outbox[k].ticketId != outbox[l].ticketId)
    }

    constructor (initialStatus: string)
      ensures Valid() && tickets == [] && outbox == [] && this.initialStatus == initialStatus
    {
      tickets := [];
      outbox := [];
      nextId := 0;
      this.initialStatus := initialStatus;
    }

    /** `createTicket`. `sent` is whether `inngest.send` resolved; when it did not, the
        ticket stays stored but no event is recorded and the reply is 500. */
    method CreateTicket(caller: Caller, title: Field<string>, description: Field<string>, now: int,
                        sent: bool) returns (reply: Reply)
      requires Valid()
      modifies this
      ensures Valid()
      ensures !TruthyString(title) || !TruthyString(description) ==>
                reply == Reply(400, "Title and description are required")
                && tickets == old(tickets) && outbox == old(outbox)
      ensures TruthyString(title) && TruthyString(description) ==>
                var t := Ticket(old(nextId), title.value, description.value, caller.id, initialStatus,
                                now, None);
                && tickets == old(tickets) + [t]
                && outbox == old(outbox)
                             + (if sent then [Event(CreatedEvent, t.id, t.title, t.description, caller.id)]
                                else [])
                && reply == (if sent then Reply(201, "Ticket created and processing started")
                             else Reply(500, "Internal Server Error"))
    {
      if !TruthyString(title) || !TruthyString(description) {
        return Reply(400, "Title and description are required");
      }
      var t := Ticket(nextId, title.value, description.value, caller.id, initialStatus, now, None);
      tickets := tickets + [t];
      nextId := nextId + 1;
      assert forall k :: 0 <= k < |outbox| ==> EventOf(outbox[k], tickets) by {
        forall k | 0 <= k < |outbox| ensures EventOf(outbox[k], tickets) {
          assert EventOf(outbox[k], old(tickets));
          var i :| 0 <= i < |old(tickets)| && old(tickets)[i].id == outbox[k].ticketId
            && old(tickets)[i].title == outbox[k].title && outbox[k].name == CreatedEvent
            && old(tickets)[i].description == outbox[k].description
            && old(tickets)[i].createdBy == outbox[k].createdBy;
          assert tickets[i] == old(tickets)[i];
        }
      }
      if !sent {
        return Reply(500, "Internal Server Error");
      }
      var e := Event(CreatedEvent, t.id, t.title, t.description, caller.id);
      assert tickets[|tickets| - 1] == t;
      assert EventOf(e, tickets);
      forall k | 0 <= k < |outbox| ensures outbox[k].ticketId != t.id {
        var i :| 0 <= i < |tickets| && tickets[i].id == outbox[k].ticketId && outbox[k].name == CreatedEvent
          && tickets[i].title == outbox[k].title && tickets[i].description == outbox[k].description
          && tickets[i].createdBy == outbox[k].createdBy;
        assert i < |old(tickets)|;
      }
      outbox := outbox + [e];
      reply := Reply(201, "Ticket created and processing started");
    }

    /** `updateTicketStatus`: the role is checked before the ticket is looked up, and only
        that ticket's status changes, to any string given. */
    method UpdateTicketStatus(caller: Caller, ticketId: nat, status: string) returns (reply: Reply)
      requires Valid()
      modifies this
      ensures Valid()
      ensures outbox == old(outbox) && nextId == old(nextId)
      ensures !MayUpdateStatus(caller.role) ==> reply == Reply(403, "Forbidden") && tickets == old(tickets)
      ensures MayUpdateStatus(caller.role) && FindById(old(tickets), ticketId).None? ==>
                reply == Reply(404, "Ticket not found") && tickets == old(tickets)
      ensures MayUpdateStatus(caller.role) && FindById(old(tickets), ticketId).Some? ==>
                reply == Reply(200, "Status updated successfully")
                && |tickets| == |old(tickets)|
                && forall i :: 0 <= i < |tickets| ==>
                     tickets[i] == if old(tickets)[i].id == ticketId then old(tickets)[i].(status := status)
                                   else old(tickets)[i]
    {
      if !MayUpdateStatus(caller.role) {
        return Reply(403, "Forbidden");
      }
      var found := FindById(tickets, ticketId);
      if found.None? {
        return Reply(404, "Ticket not found");
      }
      var i :| 0 <= i < |tickets| && tickets[i] == found.value;
      var updated := tickets[i].(status := status);
      tickets := tickets[i := updated];
      forall k | 0 <= k < |outbox| ensures EventOf(outbox[k], tickets) {
        var j :| 0 <= j < |old(tickets)| && old(tickets)[j].id == outbox[k].ticketId
          && outbox[k].name == CreatedEvent
          && old(tickets)[j].title == outbox[k].title && old(tickets)[j].description == outbox[k].description
          && old(tickets)[j].createdBy == outbox[k].createdBy;
        assert tickets[j].id == old(tickets)[j].id;
      }
      reply := Reply(200, "Status updated successfully");
    }
  }
}

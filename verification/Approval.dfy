/**
  Quorum approval (internal/auth/approval.go, approval_store_memory.go and
  internal/api/handler_approval.go). A handler reads a copy of the ticket,
  edits the copy and writes it back; nothing stops another handler or the
  expiry sweep from running in between.
  */
module Approval {
  import opened Options
  import opened Clock
  import opened Collections

  datatype Status = Pending | Approved | Rejected | Expired

  datatype Ticket = Ticket(
    id: string, operation: string, keyId: string, requestedBy: string, approvers: seq<string>, rejectors: seq<string>,
    required: int, status: Status, createdAt: Time, expiresAt: Time, resolvedAt: Option<Time>)

  datatype Refusal =
    | OperationMissing | RequiredTooSmall | TicketExists | TicketNotFound
    | AlreadyResolved(status: Status) | TicketExpired | SelfApproval | AlreadyApproved

  // ---------- Requests ----------

  datatype Draft = Draft(operation: string, keyId: string, required: int, ttlHours: int, role: string)

  function NewTicket(d: Draft, id: string, createdAt: Time, now: Time): Ticket {
    var ttl := if d.ttlHours == 0 then 24 else d.ttlHours;
    Ticket(id, d.operation, d.keyId, d.role, [], [], d.required, Pending, createdAt, now + ttl * HOUR, None)
  }

  /** A vote on a ticket: now is when expiry is tested, at the instant recorded as the resolution. */
  datatype Vote =
    | Approve(id: string, role: string, now: Time, at: Time)
    | Reject(id: string, role: string, now: Time, at: Time)

  /** The edited copy a vote writes back, if it writes one. */
  function Edited(t: Ticket, v: Vote): Option<Ticket> {
    if t.status != Pending then None
    else if v.Reject? then
      var rejectors := if v.role in t.rejectors then t.rejectors else t.rejectors + [v.role];
      Some(t.(rejectors := rejectors, status := Rejected, resolvedAt := Some(v.at)))
    else if v.now > t.expiresAt then Some(t.(status := Expired, resolvedAt := Some(v.at)))
    else if t.requestedBy == v.role || v.role in t.approvers then None
    else
      var t' := t.(approvers := t.approvers + [v.role]);
      Some(if |t'.approvers| >= t'.required then t'.(status := Approved, resolvedAt := Some(v.at)) else t')
  }

  predicate Overdue(t: Ticket, now: Time) {
    t.status == Pending && now > t.expiresAt
  }

  function Swept(t: Ticket, now: Time): Ticket {
    if Overdue(t, now) then t.(status := Expired, resolvedAt := Some(now)) else t
  }

  /** One ticket of the sweep, edited in place. */
  method Sweep(ticket: Ticket, now: Time) returns (t: Ticket, overdue: bool)
    ensures t == Swept(ticket, now) && overdue == Overdue(ticket, now)
  {
    t, overdue := ticket, false;
    if t.status == Pending && now > t.expiresAt {
      t := t.(status := Expired, resolvedAt := Some(now));
      overdue := true;
    }
  }

  type Tickets = map<string, Ticket>

  function SweptAll(tickets: Tickets, now: Time): Tickets {
    map id | id in tickets :: Swept(tickets[id], now)
  }

  function Updated(tickets: Tickets, t: Ticket): Tickets {
    if t.id in tickets then tickets[t.id := t] else tickets
  }

  /** A vote whose read and write-back nothing comes between. */
  function Voted(tickets: Tickets, v: Vote): Tickets {
    if v.id !in tickets then tickets
    else
      var edited := Edited(tickets[v.id], v);
      if edited.Some? then Updated(tickets, edited.value) else tickets
  }

  // ---------- The store and the handlers ----------

  ghost function OverdueIn(tickets: Tickets, ids: set<string>, now: Time): set<string> {
    set id | id in ids && id in tickets && Overdue(tickets[id], now)
  }

  lemma OverdueInSteps(tickets: Tickets, ids: set<string>, id: string, now: Time)
    ensures OverdueIn(tickets, {}, now) == {}
    ensures id in tickets && id !in ids ==>
              var one := if Overdue(tickets[id], now) then 1 else 0;
              |OverdueIn(tickets, ids + {id}, now)| == |OverdueIn(tickets, ids, now)| + one
  {
    if id in tickets && id !in ids {
      var more := if Overdue(tickets[id], now) then {id} else {};
      assert OverdueIn(tickets, ids + {id}, now) == OverdueIn(tickets, ids, now) + more;
    }
  }

  lemma IsSweptAll(before: Tickets, after: Tickets, now: Time)
    requires after.Keys == before.Keys && forall id | id in after :: after[id] == Swept(before[id], now)
    ensures after == SweptAll(before, now)
  {
    hide Swept;
  }

  lemma SweptAllExactly(tickets: Tickets, now: Time)
    ensures SweptAll(tickets, now).Keys == tickets.Keys
    ensures forall id | id in tickets ::
              var t := tickets[id];
              SweptAll(tickets, now)[id] == if t.status == Pending && now > t.expiresAt
                                            then t.(status := Expired, resolvedAt := Some(now)) else t
    ensures OverdueIn(tickets, tickets.Keys, now) ==
            set id | id in tickets && tickets[id].status == Pending && now > tickets[id].expiresAt
  {}

  /** The loop of CleanupExpired over the tickets. */
  method SweepTickets(before: Tickets, now: Time) returns (tickets: Tickets, count: nat)
    ensures tickets == SweptAll(before, now) && count == |OverdueIn(before, before.Keys, now)|
  {
    hide Swept, OverdueIn, SweptAll, Overdue;
    tickets, count := before, 0;
    var todo := tickets.Keys;
    OverdueInSteps(before, {}, "", now);
    assert before.Keys - todo == {};
    while todo != {}
      invariant tickets.Keys == before.Keys && todo <= tickets.Keys
      invariant forall id | id in todo :: tickets[id] == before[id]
      invariant forall id | id in tickets && id !in todo :: tickets[id] == Swept(before[id], now)
      invariant count == |OverdueIn(before, before.Keys - todo, now)|
      decreases todo
    {
      var id :| id in todo;
      var t, overdue := Sweep(tickets[id], now);
      OverdueInSteps(before, before.Keys - todo, id, now);
      assert before.Keys - (todo - {id}) == before.Keys - todo + {id};
      todo := todo - {id};
      tickets := tickets[id := t];
      if overdue {
        count := count + 1;
      }
    }
    assert before.Keys - todo == before.Keys;
    IsSweptAll(before, tickets, now);
  }

  class MemoryApprovalStore {
    var tickets: Tickets

    constructor ()
      ensures tickets == map[]
    {
      tickets := map[];
    }

    method CreateTicket(t: Ticket) returns (r: Result<(), Refusal>)
      modifies this
      ensures r == if t.id in old(tickets) then Err(TicketExists) else Ok(())
      ensures tickets == if r.Ok? then old(tickets)[t.id := t] else old(tickets)
    {
      if t.id in tickets {
        return Err(TicketExists);
      }
      tickets := tickets[t.id := t];
      return Ok(());
    }

    method GetTicket(id: string) returns (r: Result<Ticket, Refusal>)
      ensures r == if id in tickets then Ok(tickets[id]) else Err(TicketNotFound)
    {
      if id !in tickets {
        return Err(TicketNotFound);
      }
      return Ok(tickets[id]);
    }

    method UpdateTicket(t: Ticket) returns (r: Result<(), Refusal>)
      modifies this
      ensures r == if t.id in old(tickets) then Ok(()) else Err(TicketNotFound)
      ensures tickets == Updated(old(tickets), t)
    {
      if t.id !in tickets {
        return Err(TicketNotFound);
      }
      tickets := tickets[t.id := t];
      return Ok(());
    }

    /** Marks every overdue pending ticket and counts them. */
    method CleanupExpired(now: Time) returns (count: nat)
      modifies this
      ensures tickets == SweptAll(old(tickets), now)
      ensures var before := old(tickets);
              count == |set id | id in before && before[id].status == Pending && now > before[id].expiresAt|
      ensures tickets.Keys == old(tickets).Keys
      ensures forall id | id in tickets ::
                var t := old(tickets)[id];
                tickets[id] == if t.status == Pending && now > t.expiresAt
                               then t.(status := Expired, resolvedAt := Some(now)) else t
    {
      var swept: Tickets;
      swept, count := SweepTickets(tickets, now);
      SweptAllExactly(tickets, now);
      tickets := swept;
    }
  }

  method HandleCreateApproval(store: MemoryApprovalStore, d: Draft, id: string, createdAt: Time, now: Time)
    returns (r: Result<Ticket, Refusal>)
    modifies store
    ensures r.Ok? <==> d.operation != "" && d.required >= 1 && id !in old(store.tickets)
    ensures r.Ok? ==> r.value == NewTicket(d, id, createdAt, now)
    ensures r.Ok? ==>
              && r.value.id == id && r.value.operation == d.operation && r.value.keyId == d.keyId
              && r.value.requestedBy == d.role && r.value.required == d.required && r.value.status == Pending
              && r.value.approvers == [] && r.value.rejectors == [] && r.value.createdAt == createdAt
              && r.value.expiresAt == now + (if d.ttlHours == 0 then 24 else d.ttlHours) * 3_600_000_000_000
    ensures store.tickets == if r.Ok? then old(store.tickets)[id := r.value] else old(store.tickets)
  {
    if d.operation == "" {
      return Err(OperationMissing);
    }
    if d.required < 1 {
      return Err(RequiredTooSmall);
    }
    var ttlHours := d.ttlHours;
    if ttlHours == 0 {
      ttlHours := 24;
    }
    var t := Ticket(
      id, d.operation, d.keyId, d.role, [], [], d.required, Pending, createdAt, now + ttlHours * HOUR, None);
    var created := store.CreateTicket(t);
    if created.Err? {
      return Err(created.error);
    }
    return Ok(t);
  }

  method HandleApprove(store: MemoryApprovalStore, id: string, role: string, now: Time, at: Time)
    returns (r: Result<Ticket, Refusal>)
    modifies store
    ensures store.tickets == Voted(old(store.tickets), Approve(id, role, now, at))
    ensures id !in old(store.tickets) ==> r == Err(TicketNotFound)
    ensures id in old(store.tickets) && old(store.tickets)[id].id == id ==>
              var t := old(store.tickets)[id];
              && (r.Ok? <==> t.status == Pending && now <= t.expiresAt && role != t.requestedBy && role !in t.approvers)
              && (r.Ok? ==> r.value == store.tickets[id] && r.value.approvers == t.approvers + [role])
              && (r == Err(SelfApproval) <==> t.status == Pending && now <= t.expiresAt && role == t.requestedBy)
  {
    var found := store.GetTicket(id);
    if found.Err? {
      return Err(found.error);
    }
    var ticket := found.value;
    if ticket.status != Pending {
      return Err(AlreadyResolved(ticket.status));
    }
    if now > ticket.expiresAt {
      ticket := ticket.(status := Expired, resolvedAt := Some(at));
      var _ := store.UpdateTicket(ticket);
      return Err(TicketExpired);
    }
    if ticket.requestedBy == role {
      return Err(SelfApproval);
    }
    if role in ticket.approvers {
      return Err(AlreadyApproved);
    }
    ticket := ticket.(approvers := ticket.approvers + [role]);
    if |ticket.approvers| >= ticket.required {
      ticket := ticket.(status := Approved, resolvedAt := Some(at));
    }
    var updated := store.UpdateTicket(ticket);
    if updated.Err? {
      return Err(updated.error);
    }
    return Ok(ticket);
  }

  method HandleReject(store: MemoryApprovalStore, id: string, role: string, at: Time)
    returns (r: Result<Ticket, Refusal>)
    modifies store
    ensures forall now :: store.tickets == Voted(old(store.tickets), Reject(id, role, now, at))
    ensures id !in old(store.tickets) ==> r == Err(TicketNotFound)
    ensures id in old(store.tickets) && old(store.tickets)[id].id == id ==>
              && (r.Ok? <==> old(store.tickets)[id].status == Pending)
              && (r.Ok? ==>
                    && r.value == store.tickets[id] && role in r.value.rejectors
                    && r.value == old(store.tickets)[id].(
                         status := Rejected, rejectors := r.value.rejectors, resolvedAt := Some(at)))
  {
    var found := store.GetTicket(id);
    if found.Err? {
      return Err(found.error);
    }
    var ticket := found.value;
    if ticket.status != Pending {
      return Err(AlreadyResolved(ticket.status));
    }
    if role !in ticket.rejectors {
      ticket := ticket.(rejectors := ticket.rejectors + [role]);
    }
    ticket := ticket.(status := Rejected, resolvedAt := Some(at));
    var updated := store.UpdateTicket(ticket);
    if updated.Err? {
      return Err(updated.error);
    }
    return Ok(ticket);
  }

  // ---------- Handlers that interleave ----------

  type HandlerId = int

  /** copies holds what each handler in progress is about to write back. */
  datatype World = World(tickets: Tickets, copies: map<HandlerId, Ticket>)

  datatype Step =
    | Create(draft: Draft, id: string, createdAt: Time, now: Time)
    | ReadFor(handler: HandlerId, vote: Vote)
    | WriteBack(handler: HandlerId)
    | Cleanup(now: Time)
    | Delete(id: string)

  function AfterRead(w: World, h: HandlerId, v: Vote): World {
    if h in w.copies || v.id !in w.tickets || Edited(w.tickets[v.id], v).None? then w
    else w.(copies := w.copies[h := Edited(w.tickets[v.id], v).value])
  }

  function After(w: World, s: Step): World {
    match s
    case Create(d, id, createdAt, now) =>
      if d.operation == "" || d.required < 1 || id in w.tickets then w
      else w.(tickets := w.tickets[id := NewTicket(d, id, createdAt, now)])
    case ReadFor(h, v) => AfterRead(w, h, v)
    case WriteBack(h) => if h in w.copies then World(Updated(w.tickets, w.copies[h]), w.copies - {h}) else w
    case Cleanup(now) => w.(tickets := SweptAll(w.tickets, now))
    case Delete(id) => w.(tickets := w.tickets - {id})
  }

  function Run(w: World, steps: seq<Step>): World
    decreases |steps|
  {
    if |steps| == 0 then w else After(Run(w, steps[..|steps| - 1]), steps[|steps| - 1])
  }

  const START := World(map[], map[])

  // ---------- What every interleaving keeps ----------

  /** Approved exactly when a full quorum of distinct roles other than the requester has approved. */
  ghost predicate Sane(t: Ticket) {
    && t.required >= 1
    && Distinct(t.approvers)
    && t.requestedBy !in t.approvers
    && (t.status == Approved <==> |t.approvers| >= t.required)
    && |t.approvers| <= t.required
    && (t.status == Pending <==> t.resolvedAt.None?)
    && (t.status == Rejected <==> t.rejectors != [])
  }

  predicate AsksToApprove(s: Step, id: string, role: string, deadline: Time) {
    s.ReadFor? && s.vote.Approve? && s.vote.id == id && s.vote.role == role && s.vote.now <= deadline
  }

  /** Someone asked to approve the ticket in that role before it expired. */
  ghost predicate Asked(steps: seq<Step>, id: string, role: string, deadline: Time) {
    exists i | 0 <= i < |steps| :: AsksToApprove(steps[i], id, role, deadline)
  }

  ghost predicate Founded(steps: seq<Step>, t: Ticket) {
    Sane(t) && forall role | role in t.approvers :: Asked(steps, t.id, role, t.expiresAt)
  }

  ghost predicate Inv(w: World, steps: seq<Step>) {
    && (forall id | id in w.tickets :: w.tickets[id].id == id && Founded(steps, w.tickets[id]))
    && (forall h | h in w.copies :: Founded(steps, w.copies[h]))
  }

  lemma EditKeepsSane(t: Ticket, v: Vote)
    requires Sane(t) && Edited(t, v).Some?
    ensures Sane(Edited(t, v).value) && Edited(t, v).value.id == t.id && Edited(t, v).value.expiresAt == t.expiresAt
    ensures forall role | role in Edited(t, v).value.approvers ::
              role in t.approvers || (v.Approve? && role == v.role && v.now <= t.expiresAt)
  {}

  lemma LongerFounded(steps: seq<Step>, s: Step, t: Ticket)
    requires Founded(steps, t)
    ensures Founded(steps + [s], t)
  {
    forall role | role in t.approvers
      ensures Asked(steps + [s], t.id, role, t.expiresAt)
    {
      assert Asked(steps, t.id, role, t.expiresAt);
      var i :| 0 <= i < |steps| && AsksToApprove(steps[i], t.id, role, t.expiresAt);
      assert (steps + [s])[i] == steps[i];
    }
  }

  lemma EditIsFounded(steps: seq<Step>, h: HandlerId, v: Vote, t: Ticket)
    requires Founded(steps, t) && t.id == v.id && Edited(t, v).Some?
    ensures Founded(steps + [ReadFor(h, v)], Edited(t, v).value)
  {
    hide Edited, Sane;
    EditKeepsSane(t, v);
    LongerFounded(steps, ReadFor(h, v), t);
    if v.Approve? && v.now <= t.expiresAt {
      assert (steps + [ReadFor(h, v)])[|steps|] == ReadFor(h, v);
      assert Asked(steps + [ReadFor(h, v)], v.id, v.role, t.expiresAt);
    }
  }

  lemma SweepIsFounded(steps: seq<Step>, t: Ticket, now: Time)
    requires Founded(steps, t)
    ensures Founded(steps, Swept(t, now)) && Swept(t, now).id == t.id
  {}

  lemma StepKeepsInv(w: World, steps: seq<Step>, s: Step)
    requires Inv(w, steps)
    ensures Inv(After(w, s), steps + [s])
  {
    hide Sane, Edited, Asked;
    var w' := After(w, s);
    forall id | id in w'.tickets
      ensures w'.tickets[id].id == id && Founded(steps + [s], w'.tickets[id])
    {
      if s.Create? && id !in w.tickets {
        FreshIsFounded(steps + [s], s.draft, id, s.createdAt, s.now);
      } else if s.WriteBack? && s.handler in w.copies && w.copies[s.handler].id == id {
        LongerFounded(steps, s, w.copies[s.handler]);
      } else if s.Cleanup? {
        SweepIsFounded(steps, w.tickets[id], s.now);
        LongerFounded(steps, s, w'.tickets[id]);
      } else {
        LongerFounded(steps, s, w.tickets[id]);
      }
    }
    forall h | h in w'.copies
      ensures Founded(steps + [s], w'.copies[h])
    {
      if h in w.copies {
        LongerFounded(steps, s, w.copies[h]);
      } else {
        EditIsFounded(steps, h, s.vote, w.tickets[s.vote.id]);
      }
    }
  }

  lemma FreshIsFounded(steps: seq<Step>, d: Draft, id: string, createdAt: Time, now: Time)
    requires d.required >= 1
    ensures Founded(steps, NewTicket(d, id, createdAt, now))
  {}

  lemma {:induction false} RunKeepsInv(steps: seq<Step>)
    ensures Inv(Run(START, steps), steps)
    decreases |steps|
  {
    hide After, Founded;
    if |steps| > 0 {
      var last := |steps| - 1;
      RunKeepsInv(steps[..last]);
      StepKeepsInv(Run(START, steps[..last]), steps[..last], steps[last]);
      assert steps[..last] + [steps[last]] == steps;
    }
  }

  /**
    In every interleaving, stale write-backs included, a stored ticket is
    Approved exactly when at least its quorum of distinct roles, none of them
    the requester, has approved, and each of them asked to before it expired.
    */
  lemma QuorumHolds(steps: seq<Step>, id: string)
    requires id in Run(START, steps).tickets
    ensures var t := Run(START, steps).tickets[id];
            && Distinct(t.approvers) && t.requestedBy !in t.approvers
            && (t.status == Approved <==> |t.approvers| >= t.required) && t.required >= 1
            && forall role | role in t.approvers :: Asked(steps, id, role, t.expiresAt)
  {
    hide Run, Asked;
    RunKeepsInv(steps);
  }

  // ---------- When a resolution is final ----------

  ghost predicate NoStaleCopy(w: World, id: string)
    requires id in w.tickets
  {
    forall h | h in w.copies && w.copies[h].id == id :: w.copies[h] == w.tickets[id]
  }

  lemma {:induction false} ResolvedStays(w: World, steps: seq<Step>, id: string)
    requires forall i | i in w.tickets :: w.tickets[i].id == i
    requires id in w.tickets && w.tickets[id].status != Pending && NoStaleCopy(w, id)
    requires forall s | s in steps :: s != Delete(id)
    ensures var w' := Run(w, steps);
            && id in w'.tickets && w'.tickets[id] == w.tickets[id] && NoStaleCopy(w', id)
            && forall i | i in w'.tickets :: w'.tickets[i].id == i
    decreases |steps|
  {
    if |steps| > 0 {
      var last := |steps| - 1;
      assert steps[last] in steps;
      assert forall s | s in steps[..last] :: s in steps;
      ResolvedStays(w, steps[..last], id);
      ResolvedStep(Run(w, steps[..last]), steps[last], id);
    }
  }

  lemma EditKeepsId(t: Ticket, v: Vote)
    requires Edited(t, v).Some?
    ensures t.status == Pending && Edited(t, v).value.id == t.id
  {}

  lemma ResolvedStep(w: World, s: Step, id: string)
    requires forall i | i in w.tickets :: w.tickets[i].id == i
    requires id in w.tickets && w.tickets[id].status != Pending && NoStaleCopy(w, id) && s != Delete(id)
    ensures var w' := After(w, s);
            && id in w'.tickets && w'.tickets[id] == w.tickets[id] && NoStaleCopy(w', id)
            && forall i | i in w'.tickets :: w'.tickets[i].id == i
  {
    hide Edited;
    if s.ReadFor? && s.vote.id in w.tickets && Edited(w.tickets[s.vote.id], s.vote).Some? {
      EditKeepsId(w.tickets[s.vote.id], s.vote);
    }
  }

  ghost predicate FinalIn(w: World, id: string)
    requires id in w.tickets
  {
    forall steps: seq<Step> | (forall s | s in steps :: s != Delete(id)) ::
      id in Run(w, steps).tickets && Run(w, steps).tickets[id] == w.tickets[id]
  }

  /**
    A resolved ticket can never change again if and only if no handler still
    holds a different copy of it: the store does not look at what it overwrites.
    */
  lemma FinalIffNoStaleCopy(w: World, id: string)
    requires forall i | i in w.tickets :: w.tickets[i].id == i
    requires id in w.tickets && w.tickets[id].status != Pending
    ensures FinalIn(w, id) <==> NoStaleCopy(w, id)
  {
    if NoStaleCopy(w, id) {
      forall steps: seq<Step> | (forall s | s in steps :: s != Delete(id))
        ensures id in Run(w, steps).tickets && Run(w, steps).tickets[id] == w.tickets[id]
      {
        ResolvedStays(w, steps, id);
      }
    } else {
      var h :| h in w.copies && w.copies[h].id == id && w.copies[h] != w.tickets[id];
      var steps := [WriteBack(h)];
      assert Run(w, steps[..0]) == w;
      assert Run(w, steps).tickets[id] == w.copies[h];
    }
  }

  /** Such a copy is reachable: an approval read before a rejection and written after it wins. */
  lemma StaleApprovalOverridesRejection(d: Draft, now: Time)
    requires d.operation != "" && d.required == 1 && d.role == "r" && d.ttlHours > 0
    ensures var made := After(START, Create(d, "t", now, now));
            var approving := After(made, ReadFor(1, Approve("t", "a", now, now)));
            var read := After(approving, ReadFor(2, Reject("t", "b", now, now)));
            var rejected := After(read, WriteBack(2));
            && "t" in rejected.tickets && rejected.tickets["t"].status == Rejected
            && "t" in After(rejected, WriteBack(1)).tickets
            && After(rejected, WriteBack(1)).tickets["t"].status == Approved
  {
    var t := NewTicket(d, "t", now, now);
    assert t.expiresAt >= now;
    assert Edited(t, Approve("t", "a", now, now)).Some?;
  }

  // ---------- When an approval stays counted ----------

  /** Whatever is written back, role remains among the approvers. */
  ghost predicate NoCopyLacks(w: World, id: string, role: string) {
    forall h | h in w.copies && w.copies[h].id == id :: role in w.copies[h].approvers
  }

  ghost predicate Counted(w: World, id: string, role: string) {
    id in w.tickets && role in w.tickets[id].approvers
  }

  lemma EditKeepsApprovers(t: Ticket, v: Vote)
    requires Edited(t, v).Some?
    ensures forall role | role in t.approvers :: role in Edited(t, v).value.approvers
  {}

  lemma CountedStep(w: World, s: Step, id: string, role: string)
    requires forall i | i in w.tickets :: w.tickets[i].id == i
    requires Counted(w, id, role) && NoCopyLacks(w, id, role) && s != Delete(id)
    ensures Counted(After(w, s), id, role) && NoCopyLacks(After(w, s), id, role)
    ensures forall i | i in After(w, s).tickets :: After(w, s).tickets[i].id == i
  {
    hide Edited;
    if s.ReadFor? && s.vote.id in w.tickets && Edited(w.tickets[s.vote.id], s.vote).Some? {
      EditKeepsId(w.tickets[s.vote.id], s.vote);
      EditKeepsApprovers(w.tickets[s.vote.id], s.vote);
    }
  }

  lemma {:induction false} CountedStays(w: World, steps: seq<Step>, id: string, role: string)
    requires forall i | i in w.tickets :: w.tickets[i].id == i
    requires Counted(w, id, role) && NoCopyLacks(w, id, role) && forall s | s in steps :: s != Delete(id)
    ensures Counted(Run(w, steps), id, role) && NoCopyLacks(Run(w, steps), id, role)
    ensures forall i | i in Run(w, steps).tickets :: Run(w, steps).tickets[i].id == i
    decreases |steps|
  {
    hide Counted, NoCopyLacks, After;
    if |steps| > 0 {
      var last := |steps| - 1;
      assert steps[last] in steps;
      assert forall s | s in steps[..last] :: s in steps;
      CountedStays(w, steps[..last], id, role);
      CountedStep(Run(w, steps[..last]), steps[last], id, role);
    }
  }

  ghost predicate CountedForGood(w: World, id: string, role: string) {
    forall steps: seq<Step> | (forall s | s in steps :: s != Delete(id)) :: Counted(Run(w, steps), id, role)
  }

  /**
    An approval that is stored stays counted in every continuation if and only
    if no handler still holds a copy of the ticket without it.
    */
  lemma CountedIffNoCopyLacks(w: World, id: string, role: string)
    requires forall i | i in w.tickets :: w.tickets[i].id == i
    requires Counted(w, id, role)
    ensures CountedForGood(w, id, role) <==> NoCopyLacks(w, id, role)
  {
    if NoCopyLacks(w, id, role) {
      forall steps: seq<Step> | (forall s | s in steps :: s != Delete(id))
        ensures Counted(Run(w, steps), id, role)
      {
        CountedStays(w, steps, id, role);
      }
    } else {
      var h :| h in w.copies && w.copies[h].id == id && role !in w.copies[h].approvers;
      var steps := [WriteBack(h)];
      assert Run(w, steps[..0]) == w;
      assert Run(w, steps).tickets[id] == w.copies[h];
      assert !Counted(Run(w, steps), id, role);
    }
  }

  /** Such a copy is reachable: of two approvals read before either is written, both accepted, one is lost. */
  lemma ApprovalIsLost(d: Draft, now: Time)
    requires d.operation != "" && d.required == 2 && d.role == "r" && d.ttlHours > 0
    ensures var made := After(START, Create(d, "t", now, now));
            var approving := After(made, ReadFor(1, Approve("t", "a", now, now)));
            var read := After(approving, ReadFor(2, Approve("t", "b", now, now)));
            var first := After(read, WriteBack(1));
            var second := After(first, WriteBack(2));
            && Counted(first, "t", "a") && Counted(second, "t", "b") && !Counted(second, "t", "a")
            && second.tickets["t"].status == Pending
  {
    var t := NewTicket(d, "t", now, now);
    assert t.expiresAt >= now;
    assert t.approvers + ["a"] == ["a"] && t.approvers + ["b"] == ["b"];
    assert Edited(t, Approve("t", "a", now, now)) == Some(t.(approvers := ["a"]));
    assert Edited(t, Approve("t", "b", now, now)) == Some(t.(approvers := ["b"]));
  }

  // ---------- Handlers that are not interrupted ----------

  /** Every read is followed at once by its own write-back; sweeps, creations and deletions come in between votes. */
  ghost predicate Uninterrupted(steps: seq<Step>) {
    forall i | 0 < i < |steps| && steps[i - 1].ReadFor? :: steps[i] == WriteBack(steps[i - 1].handler)
  }

  lemma UninterruptedPrefix(steps: seq<Step>, n: nat)
    requires n <= |steps| && Uninterrupted(steps)
    ensures Uninterrupted(steps[..n])
  {
    assert forall i | 0 <= i < n :: steps[..n][i] == steps[i];
  }

  /** Reading and writing back at once is the vote of the handlers above. */
  lemma UninterruptedVote(w: World, h: HandlerId, v: Vote)
    requires h !in w.copies
    ensures After(After(w, ReadFor(h, v)), WriteBack(h)) == w.(tickets := Voted(w.tickets, v))
  {
    hide Edited;
    if v.id in w.tickets && Edited(w.tickets[v.id], v).Some? {
      assert w.copies[h := Edited(w.tickets[v.id], v).value] - {h} == w.copies;
    }
  }

  /** Between votes nobody holds a copy; during one, only of a ticket that is still pending, with all its approvers. */
  ghost predicate OwnCopies(w: World, steps: seq<Step>) {
    forall h | h in w.copies ::
      && steps != [] && steps[|steps| - 1].ReadFor? && steps[|steps| - 1].handler == h
      && w.copies[h].id in w.tickets && w.tickets[w.copies[h].id].status == Pending
      && forall role | role in w.tickets[w.copies[h].id].approvers :: role in w.copies[h].approvers
  }

  lemma StepKeepsOwn(w: World, steps: seq<Step>, s: Step)
    requires (forall id | id in w.tickets :: w.tickets[id].id == id) && OwnCopies(w, steps)
    requires steps != [] && steps[|steps| - 1].ReadFor? ==> s == WriteBack(steps[|steps| - 1].handler)
    ensures OwnCopies(After(w, s), steps + [s])
  {
    hide Edited;
    if s.ReadFor? && s.vote.id in w.tickets && Edited(w.tickets[s.vote.id], s.vote).Some? {
      EditKeepsId(w.tickets[s.vote.id], s.vote);
      EditKeepsApprovers(w.tickets[s.vote.id], s.vote);
    }
  }

  lemma {:induction false} CopiesArePending(steps: seq<Step>)
    requires Uninterrupted(steps)
    ensures OwnCopies(Run(START, steps), steps)
    decreases |steps|
  {
    hide After, Founded, OwnCopies;
    if |steps| == 0 {
      StartHasNoCopies();
    } else {
      var last := |steps| - 1;
      UninterruptedPrefix(steps, last);
      CopiesArePending(steps[..last]);
      RunKeepsInv(steps[..last]);
      StepKeepsOwn(Run(START, steps[..last]), steps[..last], steps[last]);
      assert steps[..last] + [steps[last]] == steps;
    }
  }

  lemma StartHasNoCopies()
    ensures OwnCopies(START, [])
  {}

  lemma {:induction false} RunSplit(w: World, a: seq<Step>, b: seq<Step>)
    ensures Run(w, a + b) == Run(Run(w, a), b)
    decreases |b|
  {
    hide After;
    if b == [] {
      assert a + b == a;
    } else {
      var c := b[..|b| - 1];
      assert (a + b)[..|a + b| - 1] == a + c;
      RunSplit(w, a, c);
    }
  }

  /**
    If handlers are not interrupted, a ticket that is resolved at some point of
    a run is the same at its end, whatever votes, sweeps and creations follow.
    */
  lemma UninterruptedResolutionIsFinal(steps: seq<Step>, n: nat, id: string)
    requires Uninterrupted(steps) && n <= |steps|
    requires var w := Run(START, steps[..n]); id in w.tickets && w.tickets[id].status != Pending
    requires forall s | s in steps[n..] :: s != Delete(id)
    ensures var w' := Run(START, steps); id in w'.tickets && w'.tickets[id] == Run(START, steps[..n]).tickets[id]
  {
    hide Run, Uninterrupted, OwnCopies, NoStaleCopy;
    var w := Run(START, steps[..n]);
    UninterruptedPrefix(steps, n);
    CopiesArePending(steps[..n]);
    OwnCopiesAreNotStale(w, steps[..n], id);
    TicketsById(steps[..n]);
    ResolvedStays(w, steps[n..], id);
    RunSplit(START, steps[..n], steps[n..]);
    assert steps[..n] + steps[n..] == steps;
  }

  lemma TicketsById(steps: seq<Step>)
    ensures forall i | i in Run(START, steps).tickets :: Run(START, steps).tickets[i].id == i
  {
    hide Run, Founded;
    RunKeepsInv(steps);
  }

  lemma OwnCopiesAreNotStale(w: World, steps: seq<Step>, id: string)
    requires OwnCopies(w, steps) && id in w.tickets && w.tickets[id].status != Pending
    ensures NoStaleCopy(w, id)
  {}

  lemma OwnCopiesLackNone(w: World, steps: seq<Step>, id: string, role: string)
    requires OwnCopies(w, steps) && Counted(w, id, role)
    ensures NoCopyLacks(w, id, role)
  {}

  /** If handlers are not interrupted, an approval that was stored at some point is still counted at the end. */
  lemma UninterruptedApprovalsCount(steps: seq<Step>, n: nat, id: string, role: string)
    requires Uninterrupted(steps) && n <= |steps| && Counted(Run(START, steps[..n]), id, role)
    requires forall s | s in steps[n..] :: s != Delete(id)
    ensures Counted(Run(START, steps), id, role)
  {
    hide Run, OwnCopies, Counted, NoCopyLacks, Uninterrupted;
    UninterruptedPrefix(steps, n);
    CopiesArePending(steps[..n]);
    OwnCopiesLackNone(Run(START, steps[..n]), steps[..n], id, role);
    TicketsById(steps[..n]);
    CountedStays(Run(START, steps[..n]), steps[n..], id, role);
    RunSplit(START, steps[..n], steps[n..]);
    assert steps[..n] + steps[n..] == steps;
  }
}

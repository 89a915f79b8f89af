/** The gate that keeps an older response from overwriting a newer one on a page that polls and saves. */
module LatestRequest {
  import opened Options

  /** A response or a failure, as the page would show it. */
  type Outcome = int

  /** What has happened to a gate: a request was issued, one settled, all in flight were given up. */
  datatype Event = Issue | Settle(ticket: nat, outcome: Outcome) | Invalidate

  datatype Shown = Shown(ticket: nat, outcome: Outcome)

  // ---------- Reading a history ----------

  function Issued(events: seq<Event>): nat {
    if events == [] then 0 else Issued(events[..|events| - 1]) + if events[|events| - 1] == Issue then 1 else 0
  }

  /** The request with this ticket has been issued, and nothing was given up since. */
  predicate InFlightOrDone(events: seq<Event>, ticket: nat) {
    if events == [] || events[|events| - 1] == Invalidate then false
    else (events[|events| - 1] == Issue && Issued(events) == ticket) || InFlightOrDone(events[..|events| - 1], ticket)
  }

  /** Event `j` is the settlement of a request that was not given up before it settled. */
  predicate Lands(events: seq<Event>, j: int) {
    0 <= j < |events| && events[j].Settle? && InFlightOrDone(events[..j], events[j].ticket)
  }

  /** `shown` is the outcome of the newest request that landed. */
  ghost predicate IsNewest(events: seq<Event>, shown: Option<Shown>) {
    match shown
    case None => forall j :: !Lands(events, j)
    case Some(s) =>
      && (exists j :: Lands(events, j) && events[j] == Settle(s.ticket, s.outcome))
      && forall j :: Lands(events, j) ==> events[j].ticket <= s.ticket
  }

  /** How many requests had been issued when the gate was last invalidated. */
  function GivenUp(events: seq<Event>): nat {
    if events == [] then 0
    else if events[|events| - 1] == Invalidate then Issued(events)
    else GivenUp(events[..|events| - 1])
  }

  lemma {:induction false} FlightExactly(events: seq<Event>, ticket: nat)
    ensures InFlightOrDone(events, ticket) <==> GivenUp(events) < ticket <= Issued(events)
    ensures GivenUp(events) <= Issued(events)
  {
    if events != [] {
      FlightExactly(events[..|events| - 1], ticket);
    }
  }

  lemma LandsAppend(events: seq<Event>, e: Event)
    ensures forall j ::
              Lands(events + [e], j)
              <==> Lands(events, j) || (j == |events| && e.Settle? && InFlightOrDone(events, e.ticket))
    ensures Issued(events + [e]) == Issued(events) + if e == Issue then 1 else 0
    ensures GivenUp(events + [e]) == if e == Invalidate then Issued(events) else GivenUp(events)
  {
    var longer := events + [e];
    assert longer[..|events|] == events;
    forall j | 0 <= j < |events| ensures Lands(longer, j) <==> Lands(events, j) {
      assert longer[..j] == events[..j] && longer[j] == events[j];
    }
  }

  lemma NewestAppend(events: seq<Event>, e: Event, shown: Option<Shown>)
    requires IsNewest(events, shown)
    ensures !e.Settle? ==> IsNewest(events + [e], shown)
    ensures e.Settle? && (!InFlightOrDone(events, e.ticket) || (shown.Some? && e.ticket < shown.value.ticket))
            ==> IsNewest(events + [e], shown)
    ensures e.Settle? && InFlightOrDone(events, e.ticket) && (shown == None || shown.value.ticket < e.ticket) ==>
              IsNewest(events + [e], Some(Shown(e.ticket, e.outcome)))
  {
    var longer := events + [e];
    LandsAppend(events, e);
    assert forall j :: 0 <= j < |events| ==> longer[j] == events[j];
    assert longer[|events|] == e;
    if shown.Some? {
      var j :| Lands(events, j) && events[j] == Settle(shown.value.ticket, shown.value.outcome);
      assert Lands(longer, j) && longer[j] == events[j];
    }
    if e.Settle? && InFlightOrDone(events, e.ticket) {
      assert Lands(longer, |events|);
    }
  }

  lemma NewestIsUnique(events: seq<Event>, a: Option<Shown>, b: Option<Shown>)
    requires IsNewest(events, a) && IsNewest(events, b) && SettlesOnce(events)
    ensures a == b
  {
    if a.Some? && b.Some? {
      var i :| Lands(events, i) && events[i] == Settle(a.value.ticket, a.value.outcome);
      var j :| Lands(events, j) && events[j] == Settle(b.value.ticket, b.value.outcome);
      assert events[i].ticket == events[j].ticket;
    }
  }

  /** A promise settles once. */
  ghost predicate SettlesOnce(events: seq<Event>) {
    forall i, j :: 0 <= i < j < |events| && events[i].Settle? && events[j].Settle?
        ==> events[i].ticket != events[j].ticket
  }

  ghost predicate Unsettled(events: seq<Event>, ticket: nat) {
    forall i :: 0 <= i < |events| && events[i].Settle? ==> events[i].ticket != ticket
  }

  ghost predicate Increasing(tickets: seq<nat>) {
    forall i, j :: 0 <= i < j < |tickets| ==> tickets[i] < tickets[j]
  }

  // ---------- The gate ----------

  /** The gate's variables, told by its history. */
  ghost predicate Tells(issued: nat, applied: nat, shown: Option<Shown>, events: seq<Event>, tickets: seq<nat>) {
    && issued == Issued(events) && GivenUp(events) <= applied <= issued
    && IsNewest(events, shown) && SettlesOnce(events)
    && Increasing(tickets)
    && (shown == None ==> applied == GivenUp(events) && tickets == [])
    && (shown.Some?
        ==> applied == (if shown.value.ticket < GivenUp(events) then GivenUp(events) else shown.value.ticket))
    && (shown.Some? ==> tickets != [] && tickets[|tickets| - 1] == shown.value.ticket)
  }

  lemma {:induction false} SettledTells(issued: nat, applied: nat, shown: Option<Shown>, events: seq<Event>,
                                        tickets: seq<nat>, ticket: nat, outcome: Outcome)
    requires Tells(issued, applied, shown, events, tickets)
    requires 0 < ticket <= issued && Unsettled(events, ticket)
    ensures ticket <= applied ==> Tells(issued, applied, shown, events + [Settle(ticket, outcome)], tickets)
    ensures ticket > applied
            ==> Tells(issued, ticket, Some(Shown(ticket, outcome)), events + [Settle(ticket, outcome)],
                      tickets + [ticket])
    ensures InFlightOrDone(events, ticket) && ticket <= applied ==> shown.Some? && shown.value.ticket >= ticket
  {
    var e := Settle(ticket, outcome);
    LandsAppend(events, e);
    NewestAppend(events, e, shown);
    FlightExactly(events, ticket);
    assert SettlesOnce(events + [e]);
    if ticket <= applied && InFlightOrDone(events, ticket) {
      NotTheShownOne(events, shown, ticket);
    }
  }

  lemma NotTheShownOne(events: seq<Event>, shown: Option<Shown>, ticket: nat)
    requires IsNewest(events, shown) && Unsettled(events, ticket)
    ensures shown.Some? ==> shown.value.ticket != ticket
  {
  }

  class LatestRequestGate {
    var issued: nat
    var applied: nat
    /** What the page shows, set by the callbacks `apply` and `fail`. */
    var shown: Option<Shown>
    ghost var events: seq<Event>
    /** The tickets of the outcomes applied so far, in that order. */
    ghost var tickets: seq<nat>

    ghost predicate Valid()
      reads this
    {
      Tells(issued, applied, shown, events, tickets)
    }

    constructor ()
      ensures Valid() && events == [] && shown == None
    {
      issued, applied, shown, events, tickets := 0, 0, None, [], [];
    }

    /** The start of `run`: a ticket is taken and the request goes out. */
    method Run() returns (ticket: nat)
      requires Valid()
      modifies this
      ensures Valid() && events == old(events) + [Issue] && shown == old(shown) && tickets == old(tickets)
      ensures ticket == Issued(events) && InFlightOrDone(events, ticket)
    {
      LandsAppend(events, Issue);
      NewestAppend(events, Issue, shown);
      issued := issued + 1;
      ticket := issued;
      events := events + [Issue];
      FlightExactly(events, ticket);
    }

    /** The end of `run`: the request settles, and its outcome is applied or dropped. */
    method Settled(ticket: nat, outcome: Outcome)
      requires Valid() && 0 < ticket <= Issued(events) && Unsettled(events, ticket)
      modifies this
      ensures Valid() && events == old(events) + [Settle(ticket, outcome)]
      ensures old(tickets) <= tickets
      ensures InFlightOrDone(old(events), ticket) ==> shown.Some? && shown.value.ticket >= ticket
    {
      SettledTells(issued, applied, shown, events, tickets, ticket, outcome);
      events := events + [Settle(ticket, outcome)];
      if ticket <= applied {
        return;
      }
      applied := ticket;
      shown, tickets := Some(Shown(ticket, outcome)), tickets + [ticket];
    }

    /** Everything in flight is given up; what is shown stays. */
    method InvalidateAll()
      requires Valid()
      modifies this
      ensures Valid() && events == old(events) + [Invalidate] && shown == old(shown) && tickets == old(tickets)
      ensures forall ticket: nat :: !InFlightOrDone(events, ticket)
    {
      LandsAppend(events, Invalidate);
      NewestAppend(events, Invalidate, shown);
      applied := issued;
      events := events + [Invalidate];
    }
  }
}

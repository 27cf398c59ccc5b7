/** What the DHCPv4 client does about each event, and which addresses its messages name. */
module LeaseEvents {
  import opened LeaseTimers
  import opened Wrappers

  // ----- packets, starts and stops -----

  /** An offer is taken up: the address it names is asked for, again three seconds later if
      nobody answers. */
  lemma OfferTaken(c: Client, at: nat, ip: nat)
    requires Enabled(c, Offer(at, ip))
    ensures var d := Step(c, Offer(at, ip));
            && d.log == c.log + [SelectSent(at, ip)]
            && d.state == Requesting && d.retries == 0 && d.timer == Request && d.due == at + 3
  {
  }

  /** An acknowledgement binds the client for the lease it grants, which is the option cut to
      28 bits but at least ten seconds, or an hour without the option. The renewal timer runs
      for half of it, and no packet is read before that. */
  lemma AckBinds(c: Client, at: nat, option: Option<nat>)
    requires Enabled(c, Ack(at, option))
    ensures var d := Step(c, Ack(at, option));
            var lease := match option
                         case None => 3600
                         case Some(v) => if v % 0x1000_0000 < 10 then 10 else v % 0x1000_0000;
            && d.log == c.log + [Available] && d.state == Bound && d.lease == d.granted == lease && d.elapsed == 0
            && d.timer == StartRenew && d.due == lease / 2
            && forall e: Event :: Enabled(d, e) ==> e.TimerDue? || e.End?
  {
  }

  /** A refusal is followed by a new start after three seconds, and until then by nothing. */
  lemma NakWaits(c: Client, at: nat)
    requires Enabled(c, Nak(at))
    ensures var d := Step(c, Nak(at));
            d.log == c.log && d.state == c.state && d.timer == RestartDhcp && d.due == at + 3
  {
  }

  /** In every run, a client that is started sends a DISCOVER and repeats it in three seconds. */
  lemma BeginSearches(events: seq<Event>, c: Client, at: nat)
    requires Runs(FRESH, events, c) && Enabled(c, Begin(at))
    ensures var d := Step(c, Begin(at));
            d.log == c.log + [DiscoverSent(at)] && d.timer == Discover && d.due == at + 3
  {
    RunInv(FRESH, events, c);
  }

  /** A client that is stopped releases the address if it holds a lease of it; afterwards
      nothing is pending, and nothing but a start can happen. */
  lemma EndStops(c: Client, at: nat)
    requires Enabled(c, End(at))
    ensures var d := Step(c, End(at));
            && d.timer == NoTimer && d.retries == 0 && d.naks == 0 && d.requested == 0 && d.lease == 0
            && d.log == c.log + (if c.state == Bound || c.state == Renewing || c.state == Rebinding
                                 then [ReleaseSent(at, c.requested)] else []) + [Stopped]
            && forall e: Event :: Enabled(d, e) ==> e.Begin? || e.End?
  {
    assert c.log + [] == c.log;
  }

  /** Discovery that begins anew, behind a NAK or a lost lease, begins without an address. */
  lemma RestartForgets(c: Client)
    requires c.timer == RestartDhcp || (c.timer == StartRebound && c.lease / 2 <= 6)
    ensures Fire(c).state == Selecting && Fire(c).requested == 0
  {
  }

  // ----- which address is named -----

  function LastOffer(events: seq<Event>): Option<nat> {
    if events == [] then None
    else
      var e := events[|events| - 1];
      if e.Offer? then Some(e.ip) else LastOffer(events[..|events| - 1])
  }

  /** A client that asks for an address, or holds a lease of one, has it from the last offer. */
  predicate Offered(events: seq<Event>, c: Client) {
    (c.state == Requesting || HoldsLease(c.state) ==> LastOffer(events) == Some(c.requested))
    && (c.timer == Request ==> c.state == Requesting)
    && (Watching(c) ==> HoldsLease(c.state))
  }

  lemma OfferedStep(events: seq<Event>, c: Client, e: Event)
    requires Inv(c) && Offered(events, c) && Enabled(c, e)
    ensures Offered(events + [e], Step(c, e))
  {
    assert (events + [e])[..|events|] == events;
    hide LastOffer;
    if e.TimerDue? {
      FireKeepsOffer(c);
    } else {
      hide Inv;
    }
  }

  lemma FireKeepsOffer(c: Client)
    requires Inv(c) && c.timer != NoTimer
    ensures var d := Fire(c);
            && (d.state == Requesting || HoldsLease(d.state) ==>
                  d.requested == c.requested && (c.state == Requesting || HoldsLease(c.state)))
            && (d.timer == Request ==> d.state == Requesting) && (Watching(d) ==> HoldsLease(d.state))
  {
  }

  lemma StepNames(events: seq<Event>, c: Client, e: Event)
    requires Inv(c) && Offered(events, c) && Enabled(c, e)
    ensures var d := Step(c, e);
            forall i :: |c.log| <= i < |d.log| ==> Named(d.log[i], LastOffer(events + [e]))
  {
    assert (events + [e])[..|events|] == events;
    hide LastOffer;
    if e.TimerDue? {
      FireNames(c, LastOffer(events));
    } else {
      hide Inv;
    }
  }

  lemma FireNames(c: Client, offer: Option<nat>)
    requires c.state == Requesting || HoldsLease(c.state) ==> offer == Some(c.requested)
    requires (c.timer == Request ==> c.state == Requesting) && (Watching(c) ==> HoldsLease(c.state))
    ensures forall i :: |c.log| <= i < |Fire(c).log| ==> Named(Fire(c).log[i], offer)
  {
  }

  predicate Named(a: Action, ip: Option<nat>) {
    (a.SelectSent? || a.RenewSent? || a.RebindSent? || a.ReleaseSent?) ==> ip == Some(a.ip)
  }

  lemma {:induction false} RunOffered(before: seq<Event>, c: Client, events: seq<Event>, d: Client)
    requires Inv(c) && Offered(before, c) && Runs(c, events, d)
    ensures Inv(d) && Offered(before + events, d)
    decreases |events|
  {
    hide Inv, Step, Offered;
    if events == [] {
      assert before + events == before;
    } else {
      var e := events[0];
      StepInv(c, e);
      OfferedStep(before, c, e);
      RunOffered(before + [e], Step(c, e), events[1..], d);
      assert before + [e] + events[1..] == before + events;
    }
  }

  /** In every run, each request, renewal, rebinding and release that an event sends names the
      address of the last offer handled. */
  lemma NamesTheOffer(events: seq<Event>, c: Client, e: Event, i: nat)
    requires Runs(FRESH, events, c) && Enabled(c, e) && |c.log| <= i < |Step(c, e).log|
    ensures Named(Step(c, e).log[i], LastOffer(events + [e]))
  {
    RunOffered([], FRESH, events, c);
    assert [] + events == events;
    StepNames(events, c, e);
  }

  // ----- a lease that is never renewed -----

  /** From a timer that is due with so much of the lease believed left: requests, each after
      half of what is left, until that is at most six seconds; then the lease is lost, and
      discovery begins. */
  function Rebinds(due: nat, left: nat, ip: nat): seq<Action>
    decreases left
  {
    if left / 2 <= 6 then [Lost(due), DiscoverSent(due)]
    else [RebindSent(due, ip)] + Rebinds(due + left / 4, left / 2, ip)
  }

  lemma {:induction false} RebindSchedule(c: Client)
    requires Inv(c) && c.timer == StartRebound
    ensures Silence(c).log == c.log + Rebinds(c.due, c.lease, c.requested)
    decreases c.lease
  {
    SilenceFires(c);
    var d := Fire(c);
    if c.lease / 2 <= 6 {
      assert c.log + [Lost(c.due)] + [DiscoverSent(c.due)] == c.log + [Lost(c.due), DiscoverSent(c.due)];
    } else {
      assert c.lease / 2 / 2 == c.lease / 4;
      RebindSchedule(d);
      var rest := Rebinds(d.due, d.lease, d.requested);
      assert c.log + [RebindSent(c.due, c.requested)] + rest == c.log + ([RebindSent(c.due, c.requested)] + rest);
    }
  }

  /** The whole of it, for every lease. */
  lemma LeaseSchedule(c: Client, at: nat, option: Option<nat>)
    requires Enabled(c, Ack(at, option))
    ensures var d := Step(c, Ack(at, option));
            && Inv(d)
            && Silence(d).log ==
               d.log + if d.lease >= 122 then [RenewSent(d.lease / 2, c.requested), NoLease(d.lease / 2 + 3)]
                       else Rebinds(d.lease / 2 + d.lease / 4, d.lease / 2, c.requested)
  {
    var b := c.(elapsed := at);
    if GetLease(option) >= 122 {
      LongLease(b, option);
      var half := GetLease(option) / 2;
      assert c.log + [Available] + [RenewSent(half, c.requested), NoLease(half + 3)]
          == c.log + [Available, RenewSent(half, c.requested), NoLease(half + 3)];
    } else {
      ShortSchedule(b, option);
    }
    hide Silence, Inv, GetLease;
  }

  lemma ShortSchedule(c: Client, option: Option<nat>)
    requires GetLease(option) < 122
    ensures var d := OnAck(c, option);
            Inv(d) && Silence(d).log == d.log + Rebinds(d.lease / 2 + d.lease / 4, d.lease / 2, c.requested)
  {
    var d := OnAck(c, option);
    assert Inv(d);
    SilenceFires(d);
    var e := Fire(d);
    assert d.lease / 2 / 2 == d.lease / 4;
    assert e.timer == StartRebound && e.lease == d.lease / 2 && e.due == d.lease / 2 + d.lease / 4 && e.log == d.log;
    RebindSchedule(e);
  }

  // ----- what the client listens to -----

  /** The socket that is open: none before a start, behind an acknowledgement and after a stop;
      UDP while renewing; otherwise raw frames, at first still UDP while rebinding. */
  predicate Listens(c: Client) {
    match c.state
    case Selecting => c.mode == L2 || c == FRESH.(elapsed := c.elapsed)
    case Requesting => c.mode == L2
    case Bound => c.mode == Closed
    case Renewing => c.mode == L3
    case Rebinding => c.mode == L3 || c.mode == L2
    case Released => c.mode == Closed
  }

  lemma ListensStep(c: Client, e: Event)
    requires Inv(c) && Listens(c) && Enabled(c, e)
    ensures Listens(Step(c, e))
  {
    if e.TimerDue? {
      ListensFire(c);
    }
  }

  lemma ListensFire(c: Client)
    requires Inv(c) && Listens(c) && c.timer != NoTimer
    ensures Listens(Fire(c))
  {
  }

  lemma {:induction false} RunListens(c: Client, events: seq<Event>, d: Client)
    requires Inv(c) && Listens(c) && Runs(c, events, d)
    ensures Listens(d)
    decreases |events|
  {
    hide Inv, Listens, Step;
    if events != [] {
      StepInv(c, events[0]);
      ListensStep(c, events[0]);
      RunListens(Step(c, events[0]), events[1..], d);
    }
  }

  /** In every run. */
  lemma AlwaysListens(events: seq<Event>, c: Client)
    requires Runs(FRESH, events, c)
    ensures Listens(c)
  {
    RunListens(FRESH, events, c);
  }
}

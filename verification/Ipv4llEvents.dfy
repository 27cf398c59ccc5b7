/** What the link-local client does about each event, in every run: told by the state it is
    in and by what it has done so far, not by its fields. */
module Ipv4llEvents {
  import opened Ipv4ll

  predicate Reached(events: seq<Event>, c: Client) {
    Runs(FRESH, events, c)
  }

  lemma ReachedInv(events: seq<Event>, c: Client)
    requires Reached(events, c)
    ensures Inv(c)
  {
    FreshInv();
    RunInv(FRESH, events, c);
  }

  /** Its only timer, if it has one. */
  predicate Waits(c: Client, t: Timer) {
    c.sources == map[c.timeout := t]
  }

  lemma WaitsIff(c: Client, t: Timer)
    requires OneTimer(c)
    ensures Live(c, t) <==> Waits(c, t)
  {
    if Live(c, t) {
      assert c.sources.Keys == {c.timeout};
    }
  }

  // ----- ARP packets -----

  /** A packet that does not name the client's address is ignored. */
  lemma Elsewhere(c: Client, spa: nat, tpa: nat)
    requires c.listening && spa != c.ip && tpa != c.ip
    ensures Step(c, Arp(spa, tpa)) == c
  {
  }

  /** Somebody else who sends from the address while it is monitored is answered with one
      announcement, whatever the packet asks for, and the address is defended. */
  lemma MonitorDefends(events: seq<Event>, c: Client, tpa: nat)
    requires Reached(events, c) && c.listening && c.state == Monitor
    ensures var d := Step(c, Arp(c.ip, tpa));
            && d.state == Defend && d.ip == c.ip && d.listening && Waits(d, DefendTimeout)
            && d.conflicts == (c.conflicts + 1) % 256
            && d.log == c.log + [Conflict(d.conflicts), AnnounceSent(c.ip)]
  {
    ReachedInv(events, c);
    ArpInv(c, c.ip, tpa);
    WaitsIff(Step(c, Arp(c.ip, tpa)), DefendTimeout);
    hide Phase, Counted, Holding, Runs;
  }

  /** One who only asks for the address, while it is monitored or defended, is counted and
      not answered. */
  lemma QueryCounted(events: seq<Event>, c: Client, spa: nat)
    requires Reached(events, c) && c.listening && (c.state == Monitor || c.state == Defend) && spa != c.ip
    ensures var n := (c.conflicts + 1) % 256;
            Step(c, Arp(spa, c.ip)) == c.(conflicts := n, log := c.log + [Conflict(n)])
  {
  }

  /** A second conflict while the address is defended, or any while it is probed or announced,
      gives the address up. Up to the ninth conflict counted the search starts over, with one
      timer; from the tenth on it is reported to have failed, and nothing is pending. */
  lemma GivesUp(events: seq<Event>, c: Client, spa: nat, tpa: nat)
    requires Reached(events, c) && c.listening && c.state != Monitor
    requires spa == c.ip || (tpa == c.ip && c.state != Defend)
    ensures var d, n := Step(c, Arp(spa, tpa)), (c.conflicts + 1) % 256;
            && d.state == Probe && d.ip == 0 && !d.listening && d.conflicts == n
            && d.log == c.log + [Conflict(n)] + (if c.state == Defend then [Lost] else [])
                              + [if n < 10 then Restarted(n) else Failed]
            && if n < 10 then Waits(d, SendProbe) else d.sources == map[]
  {
    ReachedInv(events, c);
    ListeningState(c);
    var x := if c.state == Defend then Did(Counting(c), Lost) else Counting(c);
    Restarting(x);
    assert Counting(c).log + [] == Counting(c).log;
    hide Inv, Runs, RestartOrFail, Stop, SendAnnouncePacket;
  }

  lemma Restarting(x: Client)
    requires OneTimer(x)
    ensures var d, n := RestartOrFail(Stop(x)), x.conflicts;
            && d.state == Probe && d.ip == 0 && !d.listening && d.conflicts == n
            && d.log == x.log + [if n < 10 then Restarted(n) else Failed]
            && if n < 10 then Waits(d, SendProbe) else d.sources == map[]
  {
    assert x.sources - {x.timeout} == map[];
  }

  // ----- timers -----

  /** What comes next after what was done since the last start: three probes, two
      announcements, and the claim. */
  function NextStep(c: Client, ip: nat): Action {
    var n := |Campaign(c.log)|;
    if c.state == Defend then Calmed
    else if n < 3 then ProbeSent(ip)
    else if n < 5 then AnnounceSent(ip)
    else Claimed(ip)
  }

  /** The step is done for the address, and leaves one timer but behind a claim or a defence. */
  predicate Acts(c: Client, d: Client, ip: nat) {
    && d.ip == ip && d.log == c.log + [NextStep(c, ip)] && d.listening
    && match NextStep(c, ip)
       case ProbeSent(_) => d.state == Probe && d.conflicts == c.conflicts && Waits(d, ProbeTimeout)
       case AnnounceSent(_) => d.state == Announce && d.conflicts == c.conflicts && Waits(d, AnnounceTimeout)
       case _ => d.state == Monitor && d.conflicts == 0 && d.sources == map[]
  }

  /** Every timer that fires does exactly that step, for the address being sought; one is
      picked if there is none. */
  lemma TimerActs(events: seq<Event>, c: Client, id: nat, pick: nat)
    requires Reached(events, c) && Enabled(c, Fire(id, pick))
    ensures Acts(c, Step(c, Fire(id, pick)), if c.ip == 0 then pick else c.ip)
  {
    ReachedInv(events, c);
    assert id == c.timeout && c.sources - {id} == map[];
    hide Inv, Acts, Campaign, Runs;
    match c.sources[id] {
      case SendProbe => SendProbeActs(c, pick);
      case ProbeTimeout => ProbeTimeoutActs(c, pick);
      case AnnounceTimeout => AnnounceTimeoutActs(c, pick);
      case DefendTimeout => DefendTimeoutActs(c, pick);
    }
  }

  lemma SendProbeActs(c: Client, pick: nat)
    requires Inv(c) && Live(c, SendProbe)
    ensures Acts(c, SendProbePacket(c.(sources := map[]), pick), if c.ip == 0 then pick else c.ip)
  {
    hide Campaign, Counted, Holding;
  }

  lemma ProbeTimeoutActs(c: Client, pick: nat)
    requires Inv(c) && Live(c, ProbeTimeout)
    ensures Acts(c, OnProbeTimeout(c.(sources := map[]), pick), if c.ip == 0 then pick else c.ip)
  {
    hide Campaign, Counted, Holding;
  }

  lemma AnnounceTimeoutActs(c: Client, pick: nat)
    requires Inv(c) && Live(c, AnnounceTimeout)
    ensures Acts(c, OnAnnounceTimeout(c.(sources := map[])), if c.ip == 0 then pick else c.ip)
  {
    hide Campaign, Counted, Holding;
  }

  lemma DefendTimeoutActs(c: Client, pick: nat)
    requires Inv(c) && Live(c, DefendTimeout)
    ensures Acts(c, OnDefendTimeout(c.(sources := map[])), if c.ip == 0 then pick else c.ip)
  {
    hide Campaign, Counted, Holding;
  }

  // ----- starting and stopping -----

  /** A start drops whatever was going on and seeks the address picked. */
  lemma StartSeeks(events: seq<Event>, c: Client, pick: nat)
    requires Reached(events, c) && pick != 0
    ensures var d := Step(c, Begin(pick));
            && d.ip == pick && !d.listening && d.conflicts == c.conflicts
            && Waits(d, SendProbe) && d.log == c.log + [Started]
  {
    ReachedInv(events, c);
    BeginInv(c, pick);
    WaitsIff(Step(c, Begin(pick)), SendProbe);
  }

  /** A stop leaves no timer, no address, and nothing to be read. */
  lemma StopEnds(events: seq<Event>, c: Client)
    requires Reached(events, c)
    ensures var d := Step(c, End);
            && d.state == Released && d.ip == 0 && !d.listening && d.sources == map[] && d.log == c.log + [Stopped]
  {
    ReachedInv(events, c);
    HaltInv(c);
  }

  // ----- left alone, the client claims the address -----

  /** Nothing but timers, each of them fired for the address ip. */
  predicate OnlyTimers(more: seq<Event>, ip: nat) {
    forall i :: 0 <= i < |more| ==> more[i].Fire? && more[i].pick == ip
  }

  /** Three probes, two announcements, and the claim. */
  function Protocol(ip: nat): (s: seq<Action>)
    ensures |s| == 6
  {
    [ProbeSent(ip), ProbeSent(ip), ProbeSent(ip), AnnounceSent(ip), AnnounceSent(ip), Claimed(ip)]
  }

  /** A timer that fires on the way to the claim. */
  lemma TimerOnTheWay(events: seq<Event>, c: Client, ip: nat, t: Timer, n: nat)
      returns (e: Event, d: Client, next: Timer)
    requires Reached(events, c) && Waits(c, t) && c.ip == ip != 0 && c.state != Defend
    requires |Campaign(c.log)| == n < 6
    ensures e.Fire? && e.pick == ip && Reached(events + [e], d) && d.ip == ip && d.state != Defend
    ensures |Campaign(d.log)| == n + 1 && d.log == c.log + [Protocol(ip)[n]]
    ensures n < 5 ==> Waits(d, next)
  {
    e := Fire(c.timeout, ip);
    d := Step(c, e);
    TimerActs(events, c, c.timeout, ip);
    RunsThen(FRESH, events, c, e);
    LogPush(c.log, NextStep(c, ip));
    next := if n < 3 then ProbeTimeout else AnnounceTimeout;
  }

  /** n timers from the start. */
  lemma {:induction false} OnTheWay(events: seq<Event>, c: Client, ip: nat, n: nat)
      returns (more: seq<Event>, d: Client, t: Timer)
    requires Reached(events, c) && Waits(c, SendProbe) && Campaign(c.log) == [] && c.ip == ip != 0 && n <= 6
    requires c.state != Defend
    ensures |more| == n && OnlyTimers(more, ip) && Reached(events + more, d) && d.ip == ip && d.state != Defend
    ensures |Campaign(d.log)| == n && d.log == c.log + Protocol(ip)[..n]
    ensures n < 6 ==> Waits(d, t)
    decreases n
  {
    hide Reached, Campaign, Waits;
    if n == 0 {
      more, d, t := [], c, SendProbe;
      assert events + [] == events;
    } else {
      var front, b, u := OnTheWay(events, c, ip, n - 1);
      var e;
      e, d, t := TimerOnTheWay(events + front, b, ip, u, n - 1);
      more := front + [e];
      assert events + front + [e] == events + more;
      assert Protocol(ip)[..n] == Protocol(ip)[..n - 1] + [Protocol(ip)[n - 1]];
    }
  }

  /** From any state: a client that is started for an address, and whose timers then fire
      without any conflict, claims that address. */
  lemma UndisturbedClaim(events: seq<Event>, c: Client, ip: nat) returns (more: seq<Event>, d: Client)
    requires Reached(events, c) && ip != 0
    ensures |more| == 6 && OnlyTimers(more, ip) && Reached(events + [Begin(ip)] + more, d)
    ensures d.log == c.log + [Started] + Protocol(ip) && d.state == Monitor && d.ip == ip
  {
    var b := Step(c, Begin(ip));
    StartSeeks(events, c, ip);
    RunsThen(FRESH, events, c, Begin(ip));
    LogPush(c.log, Started);
    var t;
    more, d, t := OnTheWay(events + [Begin(ip)], b, ip, 6);
    ReachedInv(events + [Begin(ip)] + more, d);
    ClaimedLast(d, ip);
    assert Protocol(ip)[..6] == Protocol(ip);
  }

  lemma ClaimedLast(d: Client, ip: nat)
    requires Inv(d) && d.log != [] && d.log[|d.log| - 1] == Claimed(ip) && ip != 0
    ensures d.state == Monitor
  {
  }
}

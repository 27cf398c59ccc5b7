/** The IPv4 link-local client of src/gdhcp/client.c (RFC 3927): probing,
    announcing, monitoring and defending an address. Timers are GLib sources:
    a source that has fired or been removed is gone, whatever id the client
    still remembers. */
module Ipv4ll {
  const PROBE_NUM: nat := 3
  const ANNOUNCE_NUM: nat := 2
  const MAX_CONFLICTS: nat := 10

  datatype State = Init | Probe | Announce | Monitor | Defend | Released

  /** The callback of a timer. */
  datatype Timer = SendProbe | ProbeTimeout | AnnounceTimeout | DefendTimeout

  datatype Action =
    | Started             // the client was started
    | Restarted(count: nat) // probing starts over, at this conflict
    | Stopped             // the client was stopped
    | ProbeSent(ip: nat)
    | AnnounceSent(ip: nat)
    | Conflict(count: nat)  // a conflicting ARP packet was handled
    | Claimed(ip: nat)    // ipv4ll_available_cb
    | Lost                // ipv4ll_lost_cb
    | Calmed              // a defence is over without a second conflict
    | Failed              // no_lease_cb

  /** The fields of the client, the live sources of the main loop, and what was done. */
  datatype Client = Client(state: State, retries: nat, conflicts: nat, ip: nat, listening: bool,
                           timeout: nat, sources: map<nat, Timer>, nextId: nat, log: seq<Action>)

  const FRESH := Client(Init, 0, 0, 0, false, 0, map[], 1, [])

  function Did(c: Client, a: Action): Client {
    c.(log := c.log + [a])
  }

  function AddTimer(c: Client, t: Timer): Client {
    c.(timeout := c.nextId, sources := c.sources[c.nextId := t], nextId := c.nextId + 1)
  }

  function RemoveTimer(c: Client): Client {
    if c.timeout > 0 then c.(sources := c.sources - {c.timeout}) else c
  }

  function SendProbePacket(c: Client, pick: nat): Client {
    var c := if c.ip == 0 then c.(ip := pick) else c;
    var c := if c.retries == 1 then c.(state := Probe, listening := true) else c;
    AddTimer(Did(c, ProbeSent(c.ip)), ProbeTimeout)
  }

  function SendAnnouncePacket(c: Client): Client {
    AddTimer(RemoveTimer(Did(c, AnnounceSent(c.ip))), if c.state == Defend then DefendTimeout else AnnounceTimeout)
  }

  /** g_dhcp_client_start and ipv4ll_start. */
  function Start(c: Client, pick: nat): Client {
    AddTimer(RemoveTimer(Did(c.(state := Init, listening := false, retries := 1, ip := pick), Started)), SendProbe)
  }

  /** ipv4ll_stop keeps the id of the timer it removes. */
  function Stop(c: Client): Client {
    RemoveTimer(c.(state := Probe, listening := false, retries := 0, ip := 0))
  }

  function OnProbeTimeout(c: Client, pick: nat): Client {
    if c.retries == PROBE_NUM then SendAnnouncePacket(c.(state := Announce, retries := 1))
    else SendProbePacket(c.(retries := c.retries + 1), pick)
  }

  function OnAnnounceTimeout(c: Client): Client {
    if c.retries != ANNOUNCE_NUM then SendAnnouncePacket(c.(retries := c.retries + 1))
    else Did(c.(state := Monitor, conflicts := 0), Claimed(c.ip))
  }

  function OnDefendTimeout(c: Client): Client {
    Did(c.(conflicts := 0, state := Monitor), Calmed)
  }

  /** Start over, or give up after too many conflicts. */
  function RestartOrFail(c: Client): Client {
    if c.conflicts < MAX_CONFLICTS then AddTimer(Did(c.(retries := c.retries + 1), Restarted(c.conflicts)), SendProbe)
    else Did(c, Failed)
  }

  /** Count a conflict; the counter has eight bits. */
  function Counting(c: Client): Client {
    var n := (c.conflicts + 1) % 256;
    Did(c.(conflicts := n), Conflict(n))
  }

  /** ipv4ll_recv_arp_packet for an ARP request or reply. */
  function OnArp(c: Client, spa: nat, tpa: nat): Client {
    var source, target := spa == c.ip, tpa == c.ip;
    if !source && !target then c
    else
      var c := Counting(c);
      if c.state == Monitor then if !source then c else SendAnnouncePacket(c.(state := Defend))
      else if c.state == Defend && !source then c
      else RestartOrFail(Stop(if c.state == Defend then Did(c, Lost) else c))
  }

  /** g_dhcp_client_stop. */
  function Halt(c: Client): Client {
    RemoveTimer(Did(c.(listening := false), Stopped)).(timeout := 0, retries := 0, ip := 0, state := Released)
  }

  datatype Event = Begin(pick: nat) | End | Fire(id: nat, pick: nat) | Arp(spa: nat, tpa: nat)

  /** Random link-local addresses are never 0; only live timers fire; ARP packets are
      read only while listening. */
  predicate Enabled(c: Client, e: Event) {
    match e
    case Begin(pick) => pick != 0
    case End => true
    case Fire(id, pick) => id in c.sources && pick != 0
    case Arp(_, _) => c.listening
  }

  function Callback(c: Client, t: Timer, pick: nat): Client {
    match t
    case SendProbe => SendProbePacket(c, pick)
    case ProbeTimeout => OnProbeTimeout(c, pick)
    case AnnounceTimeout => OnAnnounceTimeout(c)
    case DefendTimeout => OnDefendTimeout(c)
  }

  function Step(c: Client, e: Event): Client
    requires Enabled(c, e)
  {
    match e
    case Begin(pick) => Start(c, pick)
    case End => Halt(c)
    case Fire(id, pick) => Callback(c.(sources := c.sources - {id}), c.sources[id], pick)
    case Arp(spa, tpa) => OnArp(c, spa, tpa)
  }

  // ----- reading the log -----

  /** What was done since the client last started or restarted. */
  function Campaign(log: seq<Action>): seq<Action> {
    if log == [] then []
    else
      var a := log[|log| - 1];
      if a.Started? || a.Restarted? then [] else Campaign(log[..|log| - 1]) + [a]
  }

  /** Restarts since the last claim or start. */
  function Restarts(log: seq<Action>): nat {
    if log == [] then 0
    else
      var a := log[|log| - 1];
      if a.Started? || a.Claimed? then 0
      else Restarts(log[..|log| - 1]) + if a.Restarted? then 1 else 0
  }

  /** The count of the conflict that caused the first of them; 0 if there is none. */
  function FirstCount(log: seq<Action>): nat {
    if log == [] then 0
    else
      var a := log[|log| - 1];
      if a.Started? || a.Claimed? then 0
      else if a.Restarted? && Restarts(log[..|log| - 1]) == 0 then a.count
      else FirstCount(log[..|log| - 1])
  }

  /** The address claimed last, unless it was lost or given up since; 0 for none. */
  function Owned(log: seq<Action>): nat {
    if log == [] then 0
    else
      var a := log[|log| - 1];
      if a.Claimed? then a.ip
      else if a.Started? || a.Restarted? || a.Lost? || a.Stopped? then 0
      else Owned(log[..|log| - 1])
  }

  /** Announcements sent since the last claim or since the last defence was over. */
  function Defences(log: seq<Action>): nat {
    if log == [] then 0
    else
      var a := log[|log| - 1];
      if a.Claimed? || a.Calmed? then 0
      else Defences(log[..|log| - 1]) + if a.AnnounceSent? then 1 else 0
  }

  lemma LogPush(log: seq<Action>, a: Action)
    ensures Campaign(log + [a]) == if a.Started? || a.Restarted? then [] else Campaign(log) + [a]
    ensures Restarts(log + [a]) == if a.Started? || a.Claimed? then 0
                                   else Restarts(log) + if a.Restarted? then 1 else 0
    ensures FirstCount(log + [a]) == if a.Started? || a.Claimed? then 0
                                     else if a.Restarted? && Restarts(log) == 0 then a.count else FirstCount(log)
    ensures Owned(log + [a]) == if a.Claimed? then a.ip
                                else if a.Started? || a.Restarted? || a.Lost? || a.Stopped? then 0 else Owned(log)
    ensures Defences(log + [a]) == if a.Claimed? || a.Calmed? then 0
                                   else Defences(log) + if a.AnnounceSent? then 1 else 0
  {
    assert (log + [a])[..|log|] == log;
  }

  function Repeat(a: Action, n: nat): (s: seq<Action>)
    ensures |s| == n && forall i :: 0 <= i < n ==> s[i] == a
  {
    seq(n, _ => a)
  }

  // ----- the invariant -----

  /** At most one timer is live, and then it is the one the client remembers. */
  predicate OneTimer(c: Client) {
    c.timeout < c.nextId && forall id :: id in c.sources ==> id == c.timeout && id > 0
  }

  predicate Live(c: Client, t: Timer) {
    c.timeout in c.sources && c.sources[c.timeout] == t
  }

  predicate Idle(c: Client) {
    c.timeout !in c.sources
  }

  /** Where the protocol stands, by its pending timer. */
  predicate Phase(c: Client) {
    var probes, announces := Repeat(ProbeSent(c.ip), c.retries), Repeat(AnnounceSent(c.ip), c.retries);
    if Live(c, SendProbe) then
      (c.state == Init || c.state == Probe) && !c.listening && c.retries == 1 && Campaign(c.log) == []
    else if Live(c, ProbeTimeout) then
      c.state == Probe && c.listening && c.ip != 0 && 1 <= c.retries <= PROBE_NUM && Campaign(c.log) == probes
    else if Live(c, AnnounceTimeout) then
      c.state == Announce && c.listening && c.ip != 0 && 1 <= c.retries <= ANNOUNCE_NUM
      && Campaign(c.log) == Repeat(ProbeSent(c.ip), PROBE_NUM) + announces
    else if Live(c, DefendTimeout) then
      c.state == Defend && c.listening && c.ip != 0
    else
      Idle(c) && (c.listening ==> c.state == Monitor && c.ip != 0)
  }

  /** While an address is being sought, every conflict since the first restart has caused
      one; the search ends in failure at the tenth. */
  predicate Counted(c: Client) {
    var n, first := Restarts(c.log), FirstCount(c.log);
    && c.conflicts < 256
    && (c.state == Monitor || c.state == Defend ==> n == 0)
    && (n > 0 ==> n + first <= MAX_CONFLICTS)
    && (n > 0 && !Idle(c) ==> n + first == c.conflicts + 1)
  }

  /** An address that is monitored or defended is owned, and one announcement defends it. */
  predicate Holding(c: Client) {
    && Owned(c.log) == (if c.state == Monitor || c.state == Defend then c.ip else 0)
    && (c.state == Monitor || c.state == Defend ==> c.ip != 0)
    && (c.state == Monitor ==> Defences(c.log) == 0) && (c.state == Defend ==> Defences(c.log) == 1)
  }

  predicate Inv(c: Client) {
    OneTimer(c) && Phase(c) && Counted(c) && Holding(c)
  }

  lemma RepeatMore(a: Action, n: nat)
    ensures Repeat(a, n) + [a] == Repeat(a, n + 1) && Repeat(a, 1) == [a] && Repeat(a, 0) == []
  {
  }

  lemma BeginInv(c: Client, pick: nat)
    requires Inv(c) && pick != 0
    ensures Inv(Start(c, pick))
  {
    LogPush(c.log, Started);
  }

  lemma HaltInv(c: Client)
    requires Inv(c)
    ensures Inv(Halt(c)) && Halt(c).sources == map[]
  {
    hide Campaign, Restarts, FirstCount, Owned, Defences, Repeat;
    LogPush(c.log, Stopped);
  }

  lemma SendProbeInv(c: Client, id: nat, pick: nat)
    requires Inv(c) && id in c.sources && c.sources[id] == SendProbe && pick != 0
    ensures Inv(SendProbePacket(c.(sources := c.sources - {id}), pick))
  {
    hide Campaign, Restarts, FirstCount, Owned, Defences, Repeat;
    var ip := if c.ip == 0 then pick else c.ip;
    LogPush(c.log, ProbeSent(ip));
    RepeatMore(ProbeSent(ip), 0);
    assert [] + [ProbeSent(ip)] == [ProbeSent(ip)];
  }

  lemma ProbeTimeoutInv(c: Client, id: nat, pick: nat)
    requires Inv(c) && id in c.sources && c.sources[id] == ProbeTimeout && pick != 0
    ensures Inv(OnProbeTimeout(c.(sources := c.sources - {id}), pick))
  {
    hide Campaign, Restarts, FirstCount, Owned, Defences, Repeat;
    LogPush(c.log, ProbeSent(c.ip));
    LogPush(c.log, AnnounceSent(c.ip));
    RepeatMore(ProbeSent(c.ip), c.retries);
    RepeatMore(AnnounceSent(c.ip), 0);
  }

  lemma AnnounceTimeoutInv(c: Client, id: nat)
    requires Inv(c) && id in c.sources && c.sources[id] == AnnounceTimeout
    ensures Inv(OnAnnounceTimeout(c.(sources := c.sources - {id})))
  {
    hide Campaign, Restarts, FirstCount, Owned, Defences, Repeat;
    var probes, a := Repeat(ProbeSent(c.ip), PROBE_NUM), AnnounceSent(c.ip);
    LogPush(c.log, a);
    LogPush(c.log, Claimed(c.ip));
    RepeatMore(a, c.retries);
    assert probes + Repeat(a, c.retries) + [a] == probes + (Repeat(a, c.retries) + [a]);
  }

  lemma DefendTimeoutInv(c: Client, id: nat)
    requires Inv(c) && id in c.sources && c.sources[id] == DefendTimeout
    ensures Inv(OnDefendTimeout(c.(sources := c.sources - {id})))
  {
    hide Campaign, Restarts, FirstCount, Owned, Defences, Repeat;
    LogPush(c.log, Calmed);
  }

  /** Stopping and starting over keeps the counts. */
  lemma RestartInv(c: Client)
    requires OneTimer(c) && c.conflicts < 256 && Owned(c.log) == 0
    requires Restarts(c.log) > 0 ==> Restarts(c.log) + FirstCount(c.log) == c.conflicts <= MAX_CONFLICTS
    ensures Inv(RestartOrFail(Stop(c)))
  {
    hide Campaign, Restarts, FirstCount, Owned, Defences, Repeat;
    LogPush(c.log, Restarted(c.conflicts));
    LogPush(c.log, Failed);
  }

  lemma CountingLog(c: Client)
    ensures Campaign(Counting(c).log) == Campaign(c.log) + [Conflict(Counting(c).conflicts)]
    ensures Restarts(Counting(c).log) == Restarts(c.log)
    ensures FirstCount(Counting(c).log) == FirstCount(c.log)
    ensures Owned(Counting(c).log) == Owned(c.log) && Defences(Counting(c).log) == Defences(c.log)
  {
    LogPush(c.log, Conflict((c.conflicts + 1) % 256));
  }

  lemma SearchConflictInv(c: Client)
    requires Inv(c) && c.listening && (c.state == Probe || c.state == Announce)
    ensures Inv(RestartOrFail(Stop(Counting(c))))
  {
    hide Campaign, Restarts, FirstCount, Owned, Defences, Repeat, RestartOrFail, Stop;
    CountingLog(c);
    assert !Idle(c);
    RestartInv(Counting(c));
  }

  lemma DefendConflictInv(c: Client, source: bool)
    requires Inv(c) && c.listening && c.state == Defend
    ensures Inv(if source then RestartOrFail(Stop(Did(Counting(c), Lost))) else Counting(c))
  {
    hide Campaign, Restarts, FirstCount, Owned, Defences, Repeat, RestartOrFail, Stop;
    CountingLog(c);
    if source {
      LogPush(Counting(c).log, Lost);
      RestartInv(Did(Counting(c), Lost));
    }
  }

  lemma MonitorConflictInv(c: Client, source: bool)
    requires Inv(c) && c.listening && c.state == Monitor
    ensures Inv(if source then SendAnnouncePacket(Counting(c).(state := Defend)) else Counting(c))
  {
    hide Campaign, Restarts, FirstCount, Owned, Defences, Repeat;
    CountingLog(c);
    LogPush(Counting(c).log, AnnounceSent(c.ip));
  }

  lemma ArpInv(c: Client, spa: nat, tpa: nat)
    requires Inv(c) && c.listening
    ensures Inv(OnArp(c, spa, tpa))
  {
    if spa == c.ip || tpa == c.ip {
      ListeningState(c);
      hide Inv, RestartOrFail, Stop, SendAnnouncePacket, Did;
      match c.state {
        case Probe => SearchConflictInv(c);
        case Announce => SearchConflictInv(c);
        case Monitor => MonitorConflictInv(c, spa == c.ip);
        case Defend => DefendConflictInv(c, spa == c.ip);
      }
    }
  }

  lemma ListeningState(c: Client)
    requires Inv(c) && c.listening
    ensures c.state == Probe || c.state == Announce || c.state == Monitor || c.state == Defend
  {
    hide Campaign, Restarts, FirstCount, Owned, Defences, Repeat;
  }

  /** The invariant holds in every reachable state; in particular at most one timer
      is ever live. */
  lemma StepInv(c: Client, e: Event)
    requires Inv(c) && Enabled(c, e)
    ensures Inv(Step(c, e))
  {
    hide Inv;
    match e {
      case Begin(pick) => BeginInv(c, pick);
      case End => HaltInv(c);
      case Arp(spa, tpa) => ArpInv(c, spa, tpa);
      case Fire(id, pick) =>
        match c.sources[id] {
          case SendProbe => SendProbeInv(c, id, pick);
          case ProbeTimeout => ProbeTimeoutInv(c, id, pick);
          case AnnounceTimeout => AnnounceTimeoutInv(c, id);
          case DefendTimeout => DefendTimeoutInv(c, id);
        }
    }
  }

  // ----- runs -----

  /** The events take the client from c to d. */
  predicate Runs(c: Client, events: seq<Event>, d: Client)
    decreases |events|
  {
    if events == [] then c == d
    else Enabled(c, events[0]) && Runs(Step(c, events[0]), events[1..], d)
  }

  lemma {:induction false} RunInv(c: Client, events: seq<Event>, d: Client)
    requires Inv(c) && Runs(c, events, d)
    ensures Inv(d)
    decreases |events|
  {
    hide Inv, Step, Enabled;
    if events != [] {
      StepInv(c, events[0]);
      RunInv(Step(c, events[0]), events[1..], d);
    }
  }

  /** Every state a fresh client can reach satisfies the invariant: among others, at
      most one timer is live. */
  lemma ReachableInv(events: seq<Event>, c: Client)
    requires Runs(FRESH, events, c)
    ensures Inv(c) && |c.sources| <= 1
  {
    FreshInv();
    RunInv(FRESH, events, c);
    assert OneTimer(c);
    hide Phase, Counted, Runs;
    assert c.sources.Keys <= {c.timeout};
    CardinalityOne(c.sources.Keys, c.timeout);
  }

  lemma CardinalityOne(s: set<nat>, x: nat)
    requires s <= {x}
    ensures |s| <= 1
  {
    if s != {} {
      assert s == {x};
    }
  }

  lemma FreshInv()
    ensures Inv(FRESH)
  {
  }

  /** The step claims the address ip: ipv4ll_available_cb is called. */
  predicate Claims(c: Client, e: Event, ip: nat)
    requires Enabled(c, e)
  {
    Step(c, e).log == c.log + [Claimed(ip)]
  }

  /** Claim safety: in every run, when an address is claimed the client has, since it
      last started or restarted, sent exactly three probes and two announcements of
      that same address and handled no conflicting ARP packet. */
  lemma ClaimSafety(events: seq<Event>, c: Client, e: Event, ip: nat)
    requires Runs(FRESH, events, c) && Enabled(c, e) && Claims(c, e, ip)
    ensures Campaign(c.log) ==
            [ProbeSent(ip), ProbeSent(ip), ProbeSent(ip), AnnounceSent(ip), AnnounceSent(ip)]
    ensures Step(c, e).state == Monitor && Step(c, e).ip == ip && ip != 0
  {
    FreshInv();
    RunInv(FRESH, events, c);
    ClaimStep(c, e, ip);
  }

  lemma ClaimStep(c: Client, e: Event, ip: nat)
    requires Inv(c) && Enabled(c, e) && Claims(c, e, ip)
    ensures Campaign(c.log) ==
            [ProbeSent(ip), ProbeSent(ip), ProbeSent(ip), AnnounceSent(ip), AnnounceSent(ip)]
    ensures Step(c, e).state == Monitor && Step(c, e).ip == ip && ip != 0
  {
    var last := Step(c, e).log[|c.log|];
    assert last == Claimed(ip);
    assert e.Fire? && c.sources[e.id] == AnnounceTimeout && c.retries == 2;
  }

  /** In every run, MONITOR is entered only by claiming the address probed, or by coming
      back from defending the address owned, and with no conflict counted. */
  lemma MonitorEntry(events: seq<Event>, c: Client, e: Event)
    requires Runs(FRESH, events, c) && Enabled(c, e) && c.state != Monitor && Step(c, e).state == Monitor
    ensures Step(c, e).conflicts == 0 && Owned(Step(c, e).log) == Step(c, e).ip == c.ip != 0
    ensures if Claims(c, e, c.ip) then Owned(c.log) == 0
            else c.state == Defend && Owned(c.log) == c.ip && Step(c, e).log == c.log + [Calmed]
  {
    FreshInv();
    RunInv(FRESH, events, c);
    StepInv(c, e);
    hide Campaign, Restarts, FirstCount, Owned, Defences, Repeat, Runs;
  }

  /** Ownership safety: in every run, an address is monitored or defended exactly while it
      is owned, that is, claimed and neither lost, stopped nor given up since. */
  lemma OwnershipSafety(events: seq<Event>, c: Client)
    requires Runs(FRESH, events, c)
    ensures c.state == Monitor || c.state == Defend <==> Owned(c.log) == c.ip != 0
    ensures Owned(c.log) != 0 ==> Owned(c.log) == c.ip
  {
    FreshInv();
    RunInv(FRESH, events, c);
  }

  /** In every run, an owned address is given up only by a new start, by stopping the
      client, or by a conflict of its sender address that follows exactly one defending
      announcement, with no quiet interval in between, as section 2.5 of RFC 3927 has it. */
  lemma LostAfterDefence(events: seq<Event>, c: Client, e: Event)
    requires Runs(FRESH, events, c) && Enabled(c, e) && Owned(c.log) != 0
    ensures e.Begin? || e.End? || (e.Arp? && c.state == Defend && e.spa == c.ip)
            <==> Owned(Step(c, e).log) != Owned(c.log)
    ensures c.state == Defend ==> Defences(c.log) == 1
  {
    FreshInv();
    RunInv(FRESH, events, c);
    OwnedStep(c, e);
  }

  lemma OwnedStep(c: Client, e: Event)
    requires Inv(c) && Enabled(c, e) && Owned(c.log) != 0
    ensures Owned(Step(c, e).log) ==
            if e.Begin? || e.End? || (e.Arp? && c.state == Defend && e.spa == c.ip) then 0 else Owned(c.log)
  {
    hide Campaign, Restarts, FirstCount, Owned, Defences, Counted, Repeat;
    match e {
      case Begin(_) => LogPush(c.log, Started);
      case End => LogPush(c.log, Stopped);
      case Fire(_, _) => LogPush(c.log, Calmed);
      case Arp(_, _) =>
        CountingLog(c);
        LogPush(Counting(c).log, AnnounceSent(c.ip));
        LogPush(Counting(c).log, Lost);
        var lost := Did(Counting(c), Lost);
        LogPush(lost.log, Restarted(lost.conflicts));
        LogPush(lost.log, Failed);
    }
  }

  /** Between two claims, the restarts and the count of the conflict behind the first of
      them never make more than ten. While an address is sought the restarts are known from
      the counter, so the tenth happens if and only if that first conflict wrapped the
      eight-bit counter around to 0; otherwise there are at most nine. */
  lemma RestartBound(events: seq<Event>, c: Client)
    requires Runs(FRESH, events, c) && Restarts(c.log) > 0
    ensures Restarts(c.log) + FirstCount(c.log) <= MAX_CONFLICTS
    ensures !Idle(c) ==> Restarts(c.log) == c.conflicts + 1 - FirstCount(c.log)
    ensures !Idle(c) ==>
              (Restarts(c.log) == MAX_CONFLICTS <==> FirstCount(c.log) == 0 && c.conflicts == MAX_CONFLICTS - 1)
  {
    FreshInv();
    RunInv(FRESH, events, c);
  }

  lemma {:induction false} RunsAppend(c: Client, es: seq<Event>, d: Client, fs: seq<Event>, e: Client)
    requires Runs(c, es, d) && Runs(d, fs, e)
    ensures Runs(c, es + fs, e)
    decreases |es|
  {
    hide Enabled, Step;
    if es == [] {
      assert es + fs == fs;
    } else {
      RunsAppend(Step(c, es[0]), es[1..], d, fs, e);
      assert (es + fs)[1..] == es[1..] + fs;
    }
  }

  lemma RunsThen(c: Client, es: seq<Event>, d: Client, e: Event)
    requires Runs(c, es, d) && Enabled(d, e)
    ensures Runs(c, es + [e], Step(d, e))
  {
    assert Runs(Step(d, e), [], Step(d, e));
    RunsAppend(c, es, d, [e], Step(d, e));
  }

  /** ARP packets that only ask for the claimed address are counted and nothing else. */
  lemma {:induction false} Queries(c: Client, n: nat) returns (events: seq<Event>, d: Client)
    requires c.state == Monitor && c.listening && c.ip != 0 && c.conflicts + n < 256
    ensures Runs(c, events, d) && d == c.(conflicts := c.conflicts + n, log := d.log)
    ensures Restarts(d.log) == Restarts(c.log)
  {
    if n == 0 {
      events, d := [], c;
    } else {
      events, d := Queries(c, n - 1);
      CountingLog(d);
      RunsThen(c, events, d, Arp(0, c.ip));
      events, d := events + [Arp(0, c.ip)], Counting(d);
    }
  }

  /** About to probe a fresh address. */
  predicate Seeking(c: Client) {
    c.sources == map[c.timeout := SendProbe] && c.retries == 1 && c.ip == 0 && c.timeout < c.nextId
  }

  lemma RefusedProbe(c: Client, d: Client)
    requires c.state == Probe && c.retries == 1 && c.ip == 9 && c.conflicts + 1 < MAX_CONFLICTS
    requires c.sources == map[c.timeout := Timer.ProbeTimeout] && 0 < c.timeout < c.nextId && d == OnArp(c, 9, 0)
    ensures Seeking(d) && d.conflicts == c.conflicts + 1 && Restarts(d.log) == Restarts(c.log) + 1
  {
    hide Restarts, Campaign, FirstCount, Owned, Defences;
    CountingLog(c);
    LogPush(Counting(c).log, Restarted(Counting(c).conflicts));
    assert c.sources - {c.timeout} == map[];
  }

  lemma FirstProbe(c: Client, d: Client)
    requires Seeking(c) && d == SendProbePacket(c.(sources := map[]), 9)
    ensures d.state == Probe && d.listening && d.retries == 1 && d.ip == 9 && d.conflicts == c.conflicts
    ensures d.sources == map[d.timeout := Timer.ProbeTimeout] && 0 < d.timeout < d.nextId
    ensures Restarts(d.log) == Restarts(c.log)
  {
    hide Restarts, Campaign, FirstCount, Owned, Defences;
    LogPush(c.log, ProbeSent(9));
  }

  /** The next address is probed and the probe is answered. */
  lemma Refusal(c: Client) returns (events: seq<Event>, d: Client)
    requires Seeking(c) && c.conflicts + 1 < MAX_CONFLICTS
    ensures Runs(c, events, d)
    ensures Restarts(d.log) == Restarts(c.log) + 1
    ensures d.conflicts == c.conflicts + 1 && Seeking(d)
  {
    assert Runs(c, [], c);
    hide Restarts, Runs, SendProbePacket, OnArp;
    var fire := Fire(c.timeout, 9);
    RunsThen(c, [], c, fire);
    assert c.sources - {c.timeout} == map[];
    d := Step(c, fire);
    FirstProbe(c, d);
    RunsThen(c, [] + [fire], d, Arp(9, 0));
    RefusedProbe(d, Step(d, Arp(9, 0)));
    events, d := [] + [fire] + [Arp(9, 0)], Step(d, Arp(9, 0));
  }

  /** Every probed address is refused until the counter reaches n. */
  lemma {:induction false} Refused(c: Client, n: nat) returns (events: seq<Event>, d: Client)
    requires Seeking(c) && c.conflicts <= n < MAX_CONFLICTS
    ensures Runs(c, events, d)
    ensures Restarts(d.log) == Restarts(c.log) + n - c.conflicts
    ensures d.conflicts == n && Seeking(d)
    decreases n
  {
    if n == c.conflicts {
      events, d := [], c;
    } else {
      hide Restarts, Runs, Seeking;
      var es, m := Refused(c, n - 1);
      var fs;
      fs, d := Refusal(m);
      RunsAppend(c, es, m, fs, d);
      events := es + fs;
    }
  }

  /** The timer of a client that has one fires. */
  lemma Fires(events: seq<Event>, c: Client, t: Timer) returns (more: seq<Event>, d: Client)
    requires Runs(FRESH, events, c) && c.sources == map[c.timeout := t] && c.timeout < c.nextId && c.ip == 9
    ensures Runs(FRESH, more, d)
    ensures d == Callback(c.(sources := map[]), t, 9)
  {
    hide Runs;
    RunsThen(FRESH, events, c, Fire(c.timeout, 9));
    assert c.sources - {c.timeout} == map[];
    more, d := events + [Fire(c.timeout, 9)], Step(c, Fire(c.timeout, 9));
  }

  /** The client claims address 9. */
  lemma Claiming() returns (events: seq<Event>, c: Client)
    ensures Runs(FRESH, events, c)
    ensures c.state == Monitor && c.listening && c.ip == 9 && c.conflicts == 0 && Restarts(c.log) == 0
    ensures c.timeout < c.nextId && c.sources == map[]
  {
    assert Runs(FRESH, [], FRESH);
    RunsThen(FRESH, [], FRESH, Begin(9));
    hide Runs, Restarts, Campaign, FirstCount, Step;
    events, c := [] + [Begin(9)], Start(FRESH, 9);
    events, c := Fires(events, c, SendProbe);
    events, c := Fires(events, c, Timer.ProbeTimeout);
    events, c := Fires(events, c, Timer.ProbeTimeout);
    events, c := Fires(events, c, Timer.ProbeTimeout);
    events, c := Fires(events, c, Timer.AnnounceTimeout);
    LogPush(c.log, Claimed(9));
    events, c := Fires(events, c, Timer.AnnounceTimeout);
  }

  /** The bound of nine is exceeded in some run: 254 queries for the claimed address take
      the counter to its limit, so the second conflict that follows sets it to 0. */
  lemma TenRestarts() returns (events: seq<Event>, c: Client)
    ensures Runs(FRESH, events, c) && Restarts(c.log) == MAX_CONFLICTS
  {
    events, c := Claiming();
    hide Restarts, Campaign, FirstCount, Owned, Defences, Runs;
    var es, d := Queries(c, 254);
    RunsAppend(FRESH, events, c, es, d);
    events, c := events + es, d;
    RunsThen(FRESH, events, c, Arp(9, 0));
    CountingLog(c);
    LogPush(Counting(c).log, AnnounceSent(9));
    events, c := events + [Arp(9, 0)], Step(c, Arp(9, 0));
    RunsThen(FRESH, events, c, Arp(9, 0));
    CountingLog(c);
    LogPush(Counting(c).log, Lost);
    LogPush(Did(Counting(c), Lost).log, Restarted(0));
    events, c := events + [Arp(9, 0)], Step(c, Arp(9, 0));
    es, d := Refused(c, 9);
    RunsAppend(FRESH, events, c, es, d);
    events, c := events + es, d;
  }

  /** While probing or announcing, a conflict gives the address up. The search fails at
      the conflict at which the restarts and the count of the first make ten, or, before
      any restart, when the counter stands at ten or more; else it starts over. */
  lemma ConflictRestarts(events: seq<Event>, c: Client, spa: nat, tpa: nat)
    requires Runs(FRESH, events, c) && c.listening && (c.state == Probe || c.state == Announce)
    requires spa == c.ip || tpa == c.ip
    ensures var d := OnArp(c, spa, tpa);
            var failed := if Restarts(c.log) > 0 then Restarts(c.log) + FirstCount(c.log) == MAX_CONFLICTS
                          else (c.conflicts + 1) % 256 >= MAX_CONFLICTS;
            && d.ip == 0 && !d.listening
            && d.log == c.log + [Conflict(d.conflicts), if failed then Failed else Restarted(d.conflicts)]
            && (if failed then d.sources == map[] else Live(d, SendProbe))
  {
    FreshInv();
    RunInv(FRESH, events, c);
    hide Campaign, Restarts, FirstCount, Owned, Defences, Repeat, Runs;
    assert !Idle(c);
  }
}

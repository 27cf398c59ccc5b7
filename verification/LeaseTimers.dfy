/** The timers of the DHCPv4 client in src/gdhcp/client.c: how it looks for a server and
    asks for a lease, how a bound client halves what is left of its lease until the server
    answers, and how it gives the lease up. Times are whole seconds since the last
    acknowledgement was handled, or since the client began. */
module LeaseTimers {
  import opened Wrappers

  const DISCOVER_TIMEOUT: nat := 3
  const DISCOVER_RETRIES: nat := 10
  const REQUEST_TIMEOUT: nat := 3
  const REQUEST_RETRIES: nat := 5
  const DEFAULT_LEASE: nat := 3600
  const MIN_LEASE: nat := 10
  const LEASE_MASK: nat := 0x0fffffff

  /** The values of a counter of type uint8_t. */
  const COUNTER: nat := 256

  datatype State = Selecting | Requesting | Bound | Renewing | Rebinding | Released

  datatype ListenMode = Closed | L2 | L3

  datatype Timer = NoTimer | Discover | Request | StartRenew | RenewRequest | StartRebound | RestartDhcp

  datatype Action =
    | DiscoverSent(at: nat)
    | SelectSent(at: nat, ip: nat)
    | Available
    | RenewSent(at: nat, ip: nat)
    | RebindSent(at: nat, ip: nat)
    | NoLease(at: nat)      // no_lease_cb
    | Lost(at: nat)         // lease_lost_cb
    | NakRestart(at: nat)   // the restart that follows a NAK
    | ReleaseSent(at: nat, ip: nat)
    | Stopped

  /** The address asked for, how often the current message was repeated, the restarts after
      a NAK, the lease granted by the last acknowledgement, what the client believes is left
      of it, when the last event happened, and when the pending timer is due. */
  datatype Client = Client(state: State, mode: ListenMode, requested: nat, retries: nat, naks: nat, granted: nat,
                           lease: nat, elapsed: nat, timer: Timer, due: nat, log: seq<Action>)

  const FRESH := Client(Selecting, Closed, 0, 0, 0, 0, 0, 0, NoTimer, 0, [])

  /** get_lease: the lease time option, masked to 28 bits. */
  function GetLease(option: Option<nat>): (lease: nat)
    ensures MIN_LEASE <= lease <= LEASE_MASK
    ensures option.Some? && MIN_LEASE <= option.value <= LEASE_MASK ==> lease == option.value
  {
    if option.None? then DEFAULT_LEASE
    else
      var seconds := option.value % (LEASE_MASK + 1);
      if seconds < MIN_LEASE then MIN_LEASE else seconds
  }

  function Did(c: Client, a: Action): Client {
    c.(log := c.log + [a])
  }

  function SetTimer(c: Client, t: Timer, seconds: nat): Client {
    c.(timer := t, due := c.elapsed + seconds)
  }

  function RemoveTimer(c: Client): Client {
    c.(timer := NoTimer, due := 0)
  }

  /** One attempt more, in eight bits. */
  function Repeated(c: Client): Client {
    c.(retries := (c.retries + 1) % COUNTER)
  }

  /** g_dhcp_client_start: look for a server, or give up at the tenth attempt. */
  function Start(c: Client): Client {
    if c.retries == DISCOVER_RETRIES then Did(c, NoLease(c.elapsed)).(retries := 0)
    else
      var c := if c.retries == 0 then c.(state := Selecting, mode := L2) else c;
      SetTimer(Did(c, DiscoverSent(c.elapsed)), Discover, DISCOVER_TIMEOUT)
  }

  function OnDiscover(c: Client): Client {
    Start(Repeated(c))
  }

  /** start_request: take the offer up, or give up after five attempts. */
  function StartRequest(c: Client): Client {
    if c.retries == REQUEST_RETRIES then Did(c, NoLease(c.elapsed))
    else
      var c := if c.retries == 0 then c.(state := Requesting, mode := L2) else c;
      SetTimer(Did(c, SelectSent(c.elapsed, c.requested)), Request, REQUEST_TIMEOUT)
  }

  function OnRequest(c: Client): Client {
    StartRequest(Repeated(c))
  }

  function OnOffer(c: Client, ip: nat): Client {
    StartRequest(RemoveTimer(c).(retries := 0, requested := ip, state := Requesting))
  }

  function StartBound(c: Client): Client {
    SetTimer(c.(state := Bound), StartRenew, c.lease / 2)
  }

  function OnAck(c: Client, option: Option<nat>): Client {
    var lease := GetLease(option);
    StartBound(Did(c.(retries := 0, granted := lease, lease := lease, mode := Closed, elapsed := 0), Available))
  }

  function OnNak(c: Client): Client {
    SetTimer(c.(retries := 0), RestartDhcp, 3)
  }

  /** restart_dhcp: discovery begins anew, as if that many attempts had been made. */
  function Restart(c: Client, retries: nat): Client {
    Start(RemoveTimer(c).(retries := retries, requested := 0, state := Selecting, mode := L2))
  }

  /** The timer that a NAK arms. Only stopping the client clears the count. */
  function OnRestart(c: Client): Client {
    var naks := (c.naks + 1) % COUNTER;
    Restart(Did(c.(naks := naks), NakRestart(c.elapsed)), naks)
  }

  function OnStartRenew(c: Client): Client {
    var c := c.(state := Renewing, lease := c.lease / 2, mode := L3);
    if c.lease <= 60 then SetTimer(c.(state := Rebinding), StartRebound, c.lease / 2)
    else SetTimer(Did(c, RenewSent(c.elapsed, c.requested)), RenewRequest, REQUEST_TIMEOUT)
  }

  function OnRenewRequest(c: Client): Client {
    Did(c, NoLease(c.elapsed))
  }

  function OnStartRebound(c: Client): Client {
    var c := c.(lease := c.lease / 2, mode := L2);
    if c.lease <= 6 then Restart(Did(c, Lost(c.elapsed)), 0)
    else SetTimer(Did(c, RebindSent(c.elapsed, c.requested)), StartRebound, c.lease / 2)
  }

  predicate HoldsLease(s: State) {
    s == Bound || s == Renewing || s == Rebinding
  }

  /** g_dhcp_client_stop. */
  function Halt(c: Client): Client {
    var c := if HoldsLease(c.state) then Did(c, ReleaseSent(c.elapsed, c.requested)) else c;
    var c := RemoveTimer(c).(state := Released, mode := Closed);
    Did(c.(requested := 0, retries := 0, naks := 0, lease := 0), Stopped)
  }

  function Callback(c: Client, t: Timer): Client {
    match t
    case NoTimer => c
    case Discover => OnDiscover(c)
    case Request => OnRequest(c)
    case StartRenew => OnStartRenew(c)
    case RenewRequest => OnRenewRequest(c)
    case StartRebound => OnStartRebound(c)
    case RestartDhcp => OnRestart(c)
  }

  /** The pending timer fires when it is due. */
  function Fire(c: Client): Client {
    Callback(RemoveTimer(c).(elapsed := c.due), c.timer)
  }

  datatype Event =
    | Begin(at: nat)
    | End(at: nat)
    | TimerDue
    | Offer(at: nat, ip: nat)
    | Ack(at: nat, option: Option<nat>)
    | Nak(at: nat)

  /** The client is started while no timer is pending. Offers are handled while selecting,
      answers while requesting, renewing or rebinding, before the pending timer fires. */
  predicate Enabled(c: Client, e: Event) {
    match e
    case Begin(at) => c.timer == NoTimer && InTime(c, at)
    case End(at) => InTime(c, at)
    case TimerDue => c.timer != NoTimer
    case Offer(at, _) => c.state == Selecting && c.mode != Closed && InTime(c, at)
    case Ack(at, _) => AwaitsAnswer(c.state) && c.mode != Closed && InTime(c, at)
    case Nak(at) => AwaitsAnswer(c.state) && c.mode != Closed && InTime(c, at)
  }

  predicate AwaitsAnswer(s: State) {
    s == Requesting || s == Renewing || s == Rebinding
  }

  predicate InTime(c: Client, at: nat) {
    c.elapsed <= at && (c.timer != NoTimer ==> at <= c.due)
  }

  function Step(c: Client, e: Event): Client
    requires Enabled(c, e)
  {
    match e
    case Begin(at) => Start(c.(elapsed := at))
    case End(at) => Halt(c.(elapsed := at))
    case TimerDue => Fire(c)
    case Offer(at, ip) => OnOffer(c.(elapsed := at), ip)
    case Ack(at, option) => OnAck(c.(elapsed := at), option)
    case Nak(at) => OnNak(c.(elapsed := at))
  }

  /** One of the timers that watch over the lease is pending. */
  predicate Watching(c: Client) {
    c.timer == StartRenew || c.timer == RenewRequest || c.timer == StartRebound
  }

  /** What the pending timer says about the state, the attempts and the lease: the time
      passed and the time believed left never exceed it. */
  predicate Inv(c: Client) {
    && (AwaitsAnswer(c.state) ==> c.mode != Closed)
    && match c.timer
       case NoTimer => c.due == 0 && c.state != Bound && c.state != Rebinding
                       && (c.retries == 0 || (c.retries == REQUEST_RETRIES && c.state == Requesting))
       case Discover => c.retries < COUNTER && c.retries != DISCOVER_RETRIES && c.due == c.elapsed + DISCOVER_TIMEOUT
                        && c.mode != Closed
                        && (c.state == Selecting
                            || (c.state == Requesting && REQUEST_RETRIES <= c.retries < DISCOVER_RETRIES))
       case Request => c.state == Requesting && c.retries < REQUEST_RETRIES && c.due == c.elapsed + REQUEST_TIMEOUT
       case StartRenew => c.state == Bound && c.lease == c.granted && c.elapsed == 0 && c.due == c.lease / 2
                          && c.granted >= MIN_LEASE && c.retries == 0
       case RenewRequest => c.state == Renewing && c.lease > 60 && c.elapsed + c.lease <= c.granted
                            && c.due == c.elapsed + REQUEST_TIMEOUT && c.retries == 0
       case StartRebound => c.state == Rebinding && 0 < c.lease <= 60 && c.elapsed + c.lease <= c.granted
                            && c.due == c.elapsed + c.lease / 2 && c.retries == 0
       case RestartDhcp => AwaitsAnswer(c.state) && c.retries == 0
  }

  lemma FireInv(c: Client)
    requires Inv(c) && c.timer != NoTimer
    ensures Inv(Fire(c))
    ensures c.timer == StartRenew || c.timer == StartRebound ==> Fire(c).elapsed + Fire(c).lease <= c.granted
    ensures Watching(c) ==> Fire(c).elapsed <= c.granted && Fire(c).granted == c.granted
  {
    match c.timer {
      case Discover => FireSearchInv(c);
      case Request => FireSearchInv(c);
      case RestartDhcp => FireSearchInv(c);
      case StartRenew => FireRenewInv(c);
      case RenewRequest => FireRenewInv(c);
      case StartRebound => FireReboundInv(c);
    }
  }

  lemma FireSearchInv(c: Client)
    requires Inv(c) && (c.timer == Discover || c.timer == Request || c.timer == RestartDhcp)
    ensures Inv(Fire(c))
  {
  }

  lemma FireRenewInv(c: Client)
    requires Inv(c) && (c.timer == StartRenew || c.timer == RenewRequest)
    ensures Inv(Fire(c)) && Fire(c).elapsed <= c.granted && Fire(c).granted == c.granted
    ensures c.timer == StartRenew ==> Fire(c).elapsed + Fire(c).lease <= c.granted
  {
  }

  lemma FireReboundInv(c: Client)
    requires Inv(c) && c.timer == StartRebound
    ensures Inv(Fire(c)) && Fire(c).elapsed + Fire(c).lease <= c.granted && Fire(c).granted == c.granted
  {
  }

  lemma StepInv(c: Client, e: Event)
    requires Inv(c) && Enabled(c, e)
    ensures Inv(Step(c, e))
    ensures e.TimerDue? && (c.timer == StartRenew || c.timer == StartRebound) ==>
              Step(c, e).elapsed + Step(c, e).lease <= c.granted
    ensures Watching(c) && e.TimerDue? ==> Step(c, e).elapsed <= c.granted && Step(c, e).granted == c.granted
  {
    if e.TimerDue? {
      hide Inv, Fire;
      FireInv(c);
    }
  }

  /** The events take the client from c to d. */
  predicate Runs(c: Client, events: seq<Event>, d: Client)
    decreases |events|
  {
    if events == [] then c == d
    else Enabled(c, events[0]) && Runs(Step(c, events[0]), events[1..], d)
  }

  lemma {:induction false} RunInv(c: Client, events: seq<Event>, d: Client)
    requires Inv(c) && Runs(c, events, d)
    ensures Inv(d)
    decreases |events|
  {
    hide Inv, Step;
    if events != [] {
      StepInv(c, events[0]);
      RunInv(Step(c, events[0]), events[1..], d);
    }
  }

  // ----- a silent server -----

  /** What the client does when no packet arrives any more: timers fire until none
      watches over the lease. */
  function Silence(c: Client): Client
    requires Inv(c)
    decreases if Watching(c) && c.timer != RenewRequest then c.lease else 0, if Watching(c) then 1 else 0
  {
    if !Watching(c) then c
    else
      StepInv(c, TimerDue);
      Silence(Fire(c))
  }

  predicate Asks(actions: seq<Action>, n: nat) {
    n <= |actions| && forall i :: 0 <= i < n ==> actions[i].RenewSent? || actions[i].RebindSent?
  }

  /** Some requests to the server, then one report that the lease is over: there is no
      lease, or it is lost and discovery starts anew. */
  predicate Report(more: seq<Action>, limit: nat) {
    var n := |more| - 1;
    && n >= 0
    && if more[n].NoLease? then Asks(more, n) && more[n].at <= limit
       else n > 0 && Asks(more, n - 1) && more[n - 1].Lost? && more[n - 1].at <= limit
            && more[n] == DiscoverSent(more[n - 1].at)
  }

  lemma ReportMore(x: seq<Action>, more: seq<Action>, limit: nat)
    requires Asks(x, |x|) && Report(more, limit)
    ensures Report(x + more, limit)
  {
    var all, n := x + more, |more| - 1;
    assert all[|x| + n] == more[n];
    assert n > 0 ==> all[|x| + n - 1] == more[n - 1];
  }

  /** A timer that leaves the lease watched has made at most a request; one that does not
      has reported. */
  predicate Logged(c: Client, d: Client, x: seq<Action>) {
    && d.granted == c.granted && d.log == c.log + x
    && if Watching(d) then
         Asks(x, |x|) && (d.timer == RenewRequest || d.lease < c.lease) && c.timer != RenewRequest
       else (d.timer == NoTimer || (d.timer == Discover && d.retries == 0 && d.state == Selecting))
            && Report(x, c.granted)
  }

  lemma FireLog(c: Client) returns (x: seq<Action>)
    requires Inv(c) && Watching(c)
    ensures Inv(Fire(c)) && Logged(c, Fire(c), x)
  {
    FireInv(c);
    match c.timer {
      case StartRenew =>
        x := if c.lease / 2 <= 60 then [] else [RenewSent(c.due, c.requested)];
        assert c.log + [] == c.log;
      case RenewRequest => x := [NoLease(c.due)];
      case StartRebound => x := ReboundLog(c);
    }
  }

  lemma ReboundLog(c: Client) returns (x: seq<Action>)
    requires Inv(c) && c.timer == StartRebound
    ensures Logged(c, Fire(c), x)
  {
    if c.lease / 2 <= 6 {
      x := [Lost(c.due), DiscoverSent(c.due)];
      assert c.log + x == c.log + [Lost(c.due)] + [DiscoverSent(c.due)];
    } else {
      x := [RebindSent(c.due, c.requested)];
    }
  }

  lemma Joined(log: seq<Action>, x: seq<Action>, rest: seq<Action>)
    ensures log + x + rest == log + (x + rest)
  {
  }

  lemma SilenceFires(c: Client)
    requires Inv(c) && Watching(c)
    ensures Inv(Fire(c)) && Silence(c) == Silence(Fire(c))
    ensures !Watching(Fire(c)) ==> Silence(c) == Fire(c)
  {
    FireInv(c);
    assert !Watching(Fire(c)) ==> Silence(Fire(c)) == Fire(c);
  }

  /** From any state in which the lease is watched, a silent server makes the client
      report the loss of its lease or the lack of one, exactly once and no later than
      the lease of the last acknowledgement lasts. */
  lemma {:induction false} SilenceReports(c: Client) returns (more: seq<Action>)
    requires Inv(c) && Watching(c)
    ensures var d := Silence(c);
            && Inv(d) && d.granted == c.granted && d.log == c.log + more && Report(more, c.granted)
            && (d.timer == NoTimer || (d.timer == Discover && d.retries == 0 && d.state == Selecting))
    decreases if c.timer == RenewRequest then 0 else c.lease
  {
    SilenceFires(c);
    var x := FireLog(c);
    var d := Fire(c);
    hide Inv, Fire, Silence, Report, Asks;
    if Watching(d) {
      var rest := SilenceReports(d);
      ReportMore(x, rest, c.granted);
      more := x + rest;
      Joined(c.log, x, rest);
    } else {
      more := x;
    }
  }

  /** In every run: a client that was granted a lease and hears nothing more reports
      within that lease. */
  lemma LeaseExpiryBound(events: seq<Event>, c: Client)
    requires Runs(FRESH, events, c) && (c.state == Bound || Watching(c))
    ensures Inv(c) && Watching(c) && |c.log| < |Silence(c).log| && Silence(c).log[..|c.log|] == c.log
    ensures Report(Silence(c).log[|c.log|..], c.granted)
  {
    RunInv(FRESH, events, c);
    hide Runs, Report;
    var more := SilenceReports(c);
    assert Silence(c).log[|c.log|..] == more;
    ReportSome(more, c.granted);
  }

  lemma ReportSome(more: seq<Action>, limit: nat)
    requires Report(more, limit)
    ensures more != []
  {
  }

  /** What a lease that is never answered leads to. A lease of at least 122 seconds is
      renewed once, halfway, and given up three seconds later: rebinding is never tried,
      though section 4.4.5 of RFC 2131 has it begin at seven eighths of the lease. */
  lemma LongLease(c: Client, option: Option<nat>)
    requires GetLease(option) >= 122
    ensures Inv(OnAck(c, option))
    ensures var half := GetLease(option) / 2;
            Silence(OnAck(c, option)).log ==
            c.log + [Available, RenewSent(half, c.requested), NoLease(half + REQUEST_TIMEOUT)]
  {
    var half := GetLease(option) / 2;
    var d := Fire(OnAck(c, option));
    assert d.timer == RenewRequest && d.log == c.log + [Available, RenewSent(half, c.requested)];
    assert Silence(d) == Fire(d);
  }

  /** What a client does at three quarters of a lease below 122 seconds. */
  function AtThreeQuarters(lease: nat, ip: nat): Action {
    var at := lease / 2 + lease / 4;
    if lease < 28 then Lost(at) else RebindSent(at, ip)
  }

  /** A lease below 28 seconds is lost after three quarters without any request to the
      server; from there up to 121 seconds the first request is a rebinding one, after
      three quarters. */
  lemma ShortLease(c: Client, option: Option<nat>)
    requires GetLease(option) < 122
    ensures Inv(OnAck(c, option))
    ensures var lease := GetLease(option);
            var more := Silence(OnAck(c, option)).log;
            && |more| >= |c.log| + 2 && more[..|c.log| + 1] == c.log + [Available]
            && more[|c.log| + 1] == AtThreeQuarters(lease, c.requested)
  {
    var lease, d := GetLease(option), OnAck(c, option);
    var e := Fire(d);
    assert e.timer == StartRebound && e.log == c.log + [Available] && Inv(e);
    assert e.lease == lease / 2 && e.due == lease / 2 + lease / 4;
    assert Silence(d) == Silence(e) by {
      hide GetLease;
    }
    Quarters(e, lease);
  }

  lemma Quarters(e: Client, lease: nat)
    requires Inv(e) && e.timer == StartRebound && e.lease == lease / 2 && e.due == lease / 2 + lease / 4
    ensures |Silence(e).log| > |e.log| && Silence(e).log[..|e.log|] == e.log
    ensures Silence(e).log[|e.log|] == AtThreeQuarters(lease, e.requested)
  {
    SilenceFires(e);
    FireQuarters(e, lease);
    var f := Fire(e);
    hide Fire, Inv, Silence, AtThreeQuarters, Report;
    if Watching(f) {
      var rest := SilenceReports(f);
      KeepsFirst(e.log, f.log, rest);
    }
  }

  lemma KeepsFirst(a: seq<Action>, b: seq<Action>, rest: seq<Action>)
    requires |a| < |b| && b[..|a|] == a
    ensures (b + rest)[..|a|] == a && (b + rest)[|a|] == b[|a|]
  {
  }

  lemma FireQuarters(e: Client, lease: nat)
    requires Inv(e) && e.timer == StartRebound && e.lease == lease / 2 && e.due == lease / 2 + lease / 4
    ensures |Fire(e).log| > |e.log| && Fire(e).log[..|e.log|] == e.log
    ensures Fire(e).log[|e.log|] == AtThreeQuarters(lease, e.requested)
  {
    assert lease / 2 / 2 == lease / 4;
  }
}

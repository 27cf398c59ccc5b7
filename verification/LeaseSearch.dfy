/** How the DHCPv4 client looks for a server that does not answer: how many messages it sends,
    how NAKs change that, and when it no longer hears offers. */
module LeaseSearch {
  import opened LeaseTimers

  /** How many NAKs made the client start anew since it was last stopped. */
  function NakRestarts(log: seq<Action>): nat {
    if log == [] then 0
    else
      var a, before := log[|log| - 1], log[..|log| - 1];
      if a.Stopped? then 0
      else if a.NakRestart? then NakRestarts(before) + 1
      else NakRestarts(before)
  }

  /** The last thing the client did was to give up a request. */
  predicate GaveUp(log: seq<Action>) {
    |log| >= 2 && log[|log| - 1].NoLease? && log[|log| - 2].SelectSent?
  }

  /** The last action was to send what the pending timer will repeat. */
  predicate Asked(c: Client) {
    && (c.timer == Discover ==> c.log != [] && c.log[|c.log| - 1].DiscoverSent?)
    && (c.timer == Request ==> c.log != [] && c.log[|c.log| - 1].SelectSent?)
    && (c.timer == RenewRequest ==> c.log != [] && c.log[|c.log| - 1].RenewSent?)
    && (c.timer == NoTimer ==> c.retries == if GaveUp(c.log) then REQUEST_RETRIES else 0)
  }

  /** The count of NAKs has eight bits. */
  predicate Counted(c: Client) {
    c.naks == NakRestarts(c.log) % COUNTER
  }

  lemma AskedStep(c: Client, e: Event)
    requires Inv(c) && Asked(c) && Enabled(c, e)
    ensures Asked(Step(c, e))
  {
    if e.TimerDue? {
      AskedFire(c);
    }
  }

  lemma AskedFire(c: Client)
    requires Inv(c) && Asked(c) && c.timer != NoTimer
    ensures Asked(Fire(c))
  {
  }

  lemma NakPush(log: seq<Action>, a: Action)
    ensures NakRestarts(log + [a]) == if a.Stopped? then 0 else NakRestarts(log) + if a.NakRestart? then 1 else 0
  {
    assert (log + [a])[..|log|] == log;
  }

  /** The event logs at most one action, and none that counts. */
  lemma CountedPlain(c: Client, d: Client)
    requires Counted(c) && d.naks == c.naks
    requires d.log == c.log || (|d.log| == |c.log| + 1 && d.log[..|c.log|] == c.log)
    requires d.log != c.log ==> !d.log[|c.log|].Stopped? && !d.log[|c.log|].NakRestart?
    ensures Counted(d)
  {
    if d.log != c.log {
      assert d.log == c.log + [d.log[|c.log|]];
      NakPush(c.log, d.log[|c.log|]);
    }
  }

  lemma CountedRestart(c: Client, attempts: nat)
    requires Counted(c)
    ensures Counted(Restart(c, attempts))
  {
    hide Counted;
    CountedPlain(c, Restart(c, attempts));
  }

  lemma CountedNak(c: Client)
    requires Counted(c)
    ensures Counted(OnRestart(c))
  {
    var naks := (c.naks + 1) % COUNTER;
    NakPush(c.log, NakRestart(c.elapsed));
    CountedRestart(Did(c.(naks := naks), NakRestart(c.elapsed)), naks);
  }

  lemma CountedRebound(c: Client)
    requires Counted(c)
    ensures Counted(OnStartRebound(c))
  {
    NakPush(c.log, Lost(c.elapsed));
    NakPush(c.log, RebindSent(c.elapsed, c.requested));
    hide NakRestarts, Restart;
    CountedRestart(Did(c.(lease := c.lease / 2, mode := L2), Lost(c.elapsed)), 0);
  }

  lemma CountedFire(c: Client)
    requires Counted(c)
    ensures Counted(Fire(c))
  {
    hide NakRestarts;
    var d := RemoveTimer(c).(elapsed := c.due);
    if c.timer == RestartDhcp {
      CountedNak(d);
    } else if c.timer == StartRebound {
      CountedRebound(d);
    } else {
      hide Counted;
      CountedPlain(c, Fire(c));
    }
  }

  lemma CountedStep(c: Client, e: Event)
    requires Counted(c) && Enabled(c, e)
    ensures Counted(Step(c, e))
  {
    hide NakRestarts;
    if e.TimerDue? {
      CountedFire(c);
    } else if e.End? {
      var sent := if HoldsLease(c.state) then c.log + [ReleaseSent(e.at, c.requested)] else c.log;
      NakPush(sent, Stopped);
    } else {
      hide Counted;
      CountedPlain(c, Step(c, e));
    }
  }

  lemma {:induction false} SearchInv(c: Client, events: seq<Event>, d: Client)
    requires Inv(c) && Asked(c) && Counted(c) && Runs(c, events, d)
    ensures Inv(d) && Asked(d) && Counted(d)
    decreases |events|
  {
    hide Inv, Step, Asked, Counted;
    if events != [] {
      StepInv(c, events[0]);
      AskedStep(c, events[0]);
      CountedStep(c, events[0]);
      SearchInv(Step(c, events[0]), events[1..], d);
    }
  }

  lemma Reached(events: seq<Event>, c: Client)
    requires Runs(FRESH, events, c)
    ensures Inv(c) && Asked(c) && Counted(c)
  {
    SearchInv(FRESH, events, c);
  }

  predicate Searching(c: Client) {
    c.timer == Discover || c.timer == Request
  }

  /** How many messages follow the last one if nobody answers. */
  function Remaining(c: Client): nat {
    if c.timer == Discover then (DISCOVER_RETRIES - 1 - c.retries) % COUNTER
    else if c.timer == Request && c.retries < REQUEST_RETRIES then REQUEST_RETRIES - 1 - c.retries
    else 0
  }

  /** What a client does alone once it is looking for a server or asks for an offer. */
  function Alone(c: Client): Client
    requires Inv(c)
    decreases if Searching(c) then Remaining(c) + 1 else 0
  {
    if !Searching(c) then c
    else
      FireInv(c);
      FireSearching(c);
      Alone(Fire(c))
  }

  lemma FireSearching(c: Client)
    requires Inv(c) && Searching(c)
    ensures if Remaining(c) > 0 then Fire(c).timer == c.timer && Remaining(Fire(c)) == Remaining(c) - 1
            else Fire(c).timer == NoTimer
  {
    if c.timer == Discover {
      CountDown(c.retries);
    }
  }

  lemma CountDown(retries: nat)
    requires retries < COUNTER && retries != DISCOVER_RETRIES
    ensures var n, next := (DISCOVER_RETRIES - 1 - retries) % COUNTER, (retries + 1) % COUNTER;
            if n > 0 then (DISCOVER_RETRIES - 1 - next) % COUNTER == n - 1 && next != DISCOVER_RETRIES
            else next == DISCOVER_RETRIES
  {
  }

  lemma {:induction false} AloneInv(c: Client)
    requires Inv(c)
    ensures Inv(Alone(c)) && !Searching(Alone(c))
    decreases if Searching(c) then Remaining(c) + 1 else 0
  {
    if Searching(c) {
      FireInv(c);
      FireSearching(c);
      hide Inv, Fire;
      AloneInv(Fire(c));
    }
  }

  // ----- discovery -----

  /** A DISCOVER every three seconds, n in all, and the report that there is no lease. */
  function Discovers(from: nat, n: nat): seq<Action>
    decreases n
  {
    if n == 0 then [NoLease(from)] else [DiscoverSent(from)] + Discovers(from + DISCOVER_TIMEOUT, n - 1)
  }

  lemma DiscoversMore(log: seq<Action>, from: nat, n: nat)
    ensures if n == 0 then Discovers(from, n) == [NoLease(from)]
            else log + Discovers(from, n) == log + [DiscoverSent(from)] + Discovers(from + DISCOVER_TIMEOUT, n - 1)
  {
  }

  lemma DiscoverAgain(c: Client)
    requires Inv(c) && c.timer == Discover
    ensures Inv(Fire(c)) && Alone(c) == Alone(Fire(c))
    ensures var d := Fire(c);
            if Remaining(c) > 0 then
              d.timer == Discover && Remaining(d) == Remaining(c) - 1 && d.due == c.due + DISCOVER_TIMEOUT
              && d.log == c.log + [DiscoverSent(c.due)]
            else
              Alone(c) == d && d.timer == NoTimer && d.retries == 0 && d.log == c.log + [NoLease(c.due)]
  {
    FireInv(c);
    FireSearching(c);
  }

  /** A client that finds no server repeats its message every three seconds until its
      count of attempts, which has eight bits, reaches ten; then it reports that there is
      no lease. */
  lemma {:induction false} DiscoveryFails(c: Client)
    requires Inv(c) && c.timer == Discover
    ensures var d := Alone(c);
            d.timer == NoTimer && d.retries == 0 && d.log == c.log + Discovers(c.due, Remaining(c))
    decreases Remaining(c)
  {
    DiscoverAgain(c);
    DiscoversMore(c.log, c.due, Remaining(c));
    hide *;
    if Remaining(c) > 0 {
      DiscoveryFails(Fire(c));
    }
  }

  // ----- after a NAK -----

  /** In every run, the k-th restart after a NAK since the client was last stopped leaves
      (10 - k) mod 256 attempts to find a server: nine after the first, none after the tenth,
      255 after the eleventh, and the ten of a fresh start if and only if the eight bits of
      the count are back at 0. */
  lemma NakDiscovers(events: seq<Event>, c: Client)
    requires Runs(FRESH, events, c) && c.timer == RestartDhcp
    ensures Inv(Fire(c))
    ensures var d, n := Alone(Fire(c)), Attempts(NakRestarts(c.log) + 1);
            d.timer == NoTimer && d.retries == 0 && d.log == c.log + [NakRestart(c.due)] + Discovers(c.due, n)
    ensures var k := NakRestarts(c.log) + 1;
            (Attempts(k) == DISCOVER_RETRIES <==> k % COUNTER == 0)
            && (Attempts(k) == 0 <==> k % COUNTER == DISCOVER_RETRIES)
  {
    Reached(events, c);
    hide *;
    FireInv(c);
    AfterNak(c, NakRestarts(c.log) + 1);
    FullCount(NakRestarts(c.log) + 1);
  }

  lemma FullCount(k: nat)
    ensures Attempts(k) == DISCOVER_RETRIES <==> k % COUNTER == 0
    ensures Attempts(k) == 0 <==> k % COUNTER == DISCOVER_RETRIES
  {
  }

  function Attempts(k: nat): nat {
    (DISCOVER_RETRIES - k) % COUNTER
  }

  lemma AfterNak(c: Client, k: nat)
    requires Inv(Fire(c)) && Counted(c) && c.timer == RestartDhcp && k == NakRestarts(c.log) + 1
    ensures var d := Alone(Fire(c));
            d.timer == NoTimer && d.retries == 0 && d.log == c.log + [NakRestart(c.due)] + Discovers(c.due, Attempts(k))
  {
    Restarted(c);
    var n, d := Attempts(k), Fire(c);
    hide Fire, Inv, Alone, Counted, NakRestarts, Attempts;
    if n == 0 {
      AloneDone(d);
    } else {
      DiscoveryFails(d);
      DiscoversMore(c.log + [NakRestart(c.due)], c.due, n);
    }
  }

  lemma AloneDone(c: Client)
    requires Inv(c) && c.timer == NoTimer
    ensures Alone(c) == c
  {
  }

  lemma Restarted(c: Client)
    requires Counted(c) && c.timer == RestartDhcp
    ensures var d, n, log := Fire(c), Attempts(NakRestarts(c.log) + 1), c.log + [NakRestart(c.due)];
            && d.state == Selecting && d.mode == L2 && d.elapsed == c.due
            && if n == 0 then d.timer == NoTimer && d.retries == 0 && d.log == log + [NoLease(c.due)]
               else d.timer == Discover && d.due == c.due + DISCOVER_TIMEOUT && d.log == log + [DiscoverSent(c.due)]
                    && (DISCOVER_RETRIES - 1 - d.retries) % COUNTER == n - 1
  {
    hide NakRestarts;
  }

  lemma {:induction false} RunsAppend(a: Client, p: seq<Event>, b: Client, q: seq<Event>, c: Client)
    requires Runs(a, p, b) && Runs(b, q, c)
    ensures Runs(a, p + q, c)
    decreases |p|
  {
    hide Step;
    if p == [] {
      assert p + q == q;
    } else {
      assert (p + q)[1..] == p[1..] + q;
      RunsAppend(Step(a, p[0]), p[1..], b, q, c);
    }
  }

  lemma Refusal(c: Client, ip: nat) returns (d: Client)
    requires c.state == Selecting && c.mode == L2 && (c.timer != NoTimer ==> c.elapsed <= c.due)
    ensures Runs(c, [Offer(c.elapsed, ip), Nak(c.elapsed)], d)
    ensures d.timer == RestartDhcp && NakRestarts(d.log) == NakRestarts(c.log)
  {
    var x, y := Offer(c.elapsed, ip), Nak(c.elapsed);
    var b := Step(c, x);
    d := Step(b, y);
    NakPush(c.log, SelectSent(c.elapsed, ip));
    assert [x, y][1..] == [y] && [y][1..] == [];
    assert Runs(b, [y], d);
  }

  /** Any number of NAKs can come in a row, from a server that offers an address and then
      refuses it. */
  lemma {:induction false} NakRun(n: nat, ip: nat) returns (events: seq<Event>, c: Client)
    ensures Runs(FRESH, events, c) && c.timer == RestartDhcp && NakRestarts(c.log) == n
  {
    if n == 0 {
      var b := Step(FRESH, Begin(0));
      assert [Begin(0)][1..] == [];
      assert Runs(FRESH, [Begin(0)], b);
      c := Refusal(b, ip);
      events := [Begin(0)] + [Offer(0, ip), Nak(0)];
      RunsAppend(FRESH, [Begin(0)], b, [Offer(0, ip), Nak(0)], c);
    } else {
      var before, b := NakRun(n - 1, ip);
      Reached(before, b);
      var d := Tried(b);
      RunsAppend(FRESH, before, b, [TimerDue], d);
      hide Fire, Step, Runs, NakRestarts, Inv, Asked, Counted;
      c := Refusal(d, ip);
      events := before + [TimerDue] + [Offer(d.elapsed, ip), Nak(d.elapsed)];
      RunsAppend(FRESH, before + [TimerDue], d, [Offer(d.elapsed, ip), Nak(d.elapsed)], c);
    }
  }

  lemma Tried(b: Client) returns (d: Client)
    requires Counted(b) && b.timer == RestartDhcp
    ensures Runs(b, [TimerDue], d)
    ensures d.state == Selecting && d.mode == L2 && (d.timer != NoTimer ==> d.elapsed <= d.due)
    ensures NakRestarts(d.log) == NakRestarts(b.log) + 1
  {
    d := Step(b, TimerDue);
    assert [TimerDue][1..] == [];
    Restarted(b);
    hide Fire;
    NakPush(b.log, NakRestart(b.due));
    NakPush(b.log + [NakRestart(b.due)], NoLease(b.due));
    NakPush(b.log + [NakRestart(b.due)], DiscoverSent(b.due));
  }

  /** A run whose eleventh NAK sets the client to 255 attempts. */
  lemma ElevenNaks(ip: nat) returns (events: seq<Event>, c: Client)
    ensures Runs(FRESH, events, c) && Inv(c) && c.timer == RestartDhcp && NakRestarts(c.log) == 10 && Inv(Fire(c))
    ensures Alone(Fire(c)).log ==
            c.log + [NakRestart(c.due)] + Discovers(c.due, 255)
  {
    events, c := NakRun(10, ip);
    RunInv(FRESH, events, c);
    NakDiscovers(events, c);
  }

  // ----- requests -----

  function Selects(from: nat, ip: nat, n: nat): seq<Action>
    decreases n
  {
    if n == 0 then [NoLease(from)] else [SelectSent(from, ip)] + Selects(from + REQUEST_TIMEOUT, ip, n - 1)
  }

  lemma SelectsMore(log: seq<Action>, from: nat, ip: nat, n: nat)
    ensures if n == 0 then Selects(from, ip, n) == [NoLease(from)]
            else log + Selects(from, ip, n) == log + [SelectSent(from, ip)] + Selects(from + REQUEST_TIMEOUT, ip, n - 1)
  {
  }

  lemma RequestAgain(c: Client)
    requires Inv(c) && c.timer == Request
    ensures Inv(Fire(c)) && Alone(c) == Alone(Fire(c))
    ensures if c.retries + 1 < REQUEST_RETRIES then
              Fire(c) == c.(elapsed := c.due, retries := c.retries + 1, due := c.due + REQUEST_TIMEOUT,
                            log := c.log + [SelectSent(c.due, c.requested)])
            else Fire(c) == c.(elapsed := c.due, retries := REQUEST_RETRIES, timer := NoTimer, due := 0,
                               log := c.log + [NoLease(c.due)])
    ensures c.retries + 1 == REQUEST_RETRIES ==> Alone(c) == Fire(c)
  {
    FireInv(c);
    FireSearching(c);
  }

  /** A client whose request is not answered repeats it every three seconds, five times in
      all, and then reports that there is no lease. It stays in REQUESTING. */
  lemma {:induction false} RequestFails(c: Client)
    requires Inv(c) && c.timer == Request
    ensures var d, n := Alone(c), REQUEST_RETRIES - 1 - c.retries;
            && d.timer == NoTimer && d.retries == REQUEST_RETRIES && d.state == Requesting
            && d.log == c.log + Selects(c.due, c.requested, n)
    decreases REQUEST_RETRIES - c.retries
  {
    RequestAgain(c);
    var n := REQUEST_RETRIES - 1 - c.retries;
    assert n >= 0 && c.state == Requesting;
    SelectsMore(c.log, c.due, c.requested, n);
    hide *;
    if n > 0 {
      RequestFails(Fire(c));
    }
  }

  // ----- offers that are not handled -----

  /** In every run, a client that is started handles an offer that comes in time, except
      when its count of attempts says five. That is so exactly when the last thing it did
      was to give up a request. */
  lemma StartHears(events: seq<Event>, c: Client, start: nat, at: nat, ip: nat)
    requires Runs(FRESH, events, c) && Enabled(c, Begin(start)) && InTime(Step(c, Begin(start)), at)
    ensures Enabled(Step(c, Begin(start)), Offer(at, ip)) <==> c.retries != REQUEST_RETRIES
    ensures c.retries == REQUEST_RETRIES <==> GaveUp(c.log)
  {
    Reached(events, c);
    hide NakRestarts, Runs;
  }

  /** The client looks for a server but would not handle an offer. */
  predicate Deaf(c: Client) {
    c.timer == Discover && c.state != Selecting
  }

  /** In every run, a client that waits for offers does not hear them if and only if it is
      in REQUESTING with five to nine attempts counted. */
  lemma DeafIff(events: seq<Event>, c: Client, at: nat, ip: nat)
    requires Runs(FRESH, events, c) && c.timer == Discover && InTime(c, at)
    ensures !Enabled(c, Offer(at, ip)) <==> c.state == Requesting && REQUEST_RETRIES <= c.retries < DISCOVER_RETRIES
    ensures !Enabled(c, Offer(at, ip)) <==> Deaf(c)
  {
    Reached(events, c);
    hide NakRestarts, Runs;
  }

  /** A deaf client remains so exactly while its timer fires, up to the ninth attempt: an
      answer, a stop or the report of no lease end it, and nothing else can happen. */
  lemma DeafStays(events: seq<Event>, c: Client, e: Event)
    requires Runs(FRESH, events, c) && Deaf(c) && Enabled(c, e)
    ensures !e.Begin? && !e.Offer?
    ensures Deaf(Step(c, e)) <==> e.TimerDue? && c.retries + 1 < DISCOVER_RETRIES
    ensures e.TimerDue? && !Deaf(Step(c, e)) ==> Step(c, e).log == c.log + [NoLease(c.due)]
  {
    Reached(events, c);
    hide NakRestarts, Runs;
  }

  /** A client that is started again after giving up a request keeps its count of attempts:
      it sends five DISCOVERs, deaf to offers, and reports a second time that there is no
      lease. */
  lemma DeafRestart(events: seq<Event>, c: Client, start: nat)
    requires Runs(FRESH, events, c) && c.retries == REQUEST_RETRIES && Enabled(c, Begin(start))
    ensures var d := Step(c, Begin(start));
            && Inv(d) && Deaf(d) && d.log == c.log + [DiscoverSent(start)]
            && Alone(d).log == d.log + Discovers(d.due, 4)
  {
    Reached(events, c);
    hide NakRestarts, Runs;
    StepInv(c, Begin(start));
    DiscoveryFails(Step(c, Begin(start)));
  }
}

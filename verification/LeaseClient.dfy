/** The client of LeaseTimers as the source keeps it: an object whose fields the timer
    callbacks and the packet handler assign, beside a main loop that owns the clock and the
    timers. That at most one timer is pending, which the specification takes for granted,
    is kept by every method here. */
module LeaseClient {
  import opened LeaseTimers
  import opened Wrappers

  /** A timer and the time at which it is due. */
  datatype Source = Source(timer: Timer, due: nat)

  /** The GLib main loop. */
  class MainLoop {
    var now: nat
    var sources: map<nat, Source>
    var nextId: nat

    constructor ()
      ensures now == 0 && sources == map[] && nextId == 1
    {
      now, sources, nextId := 0, map[], 1;
    }

    method TimeoutAddSeconds(t: Timer, seconds: nat) returns (id: nat)
      modifies this
      ensures id == old(nextId) && nextId == id + 1 && now == old(now)
      ensures sources == old(sources)[id := Source(t, now + seconds)]
    {
      id := nextId;
      sources := sources[id := Source(t, now + seconds)];
      nextId := nextId + 1;
    }

    method SourceRemove(id: nat)
      modifies this
      ensures nextId == old(nextId) && now == old(now) && sources == old(sources) - {id}
    {
      sources := sources - {id};
    }
  }

  class DhcpClient {
    const loop: MainLoop
    var state: State
    var listenMode: ListenMode
    var requestedIp: nat
    var retryTimes: nat
    var ackRetryTimes: nat
    var leaseSeconds: nat
    var timeout: nat
    ghost var Granted: nat
    ghost var AckAt: nat
    ghost var Log: seq<Action>

    /** The main loop holds no timer but the one whose id is in the timeout field. */
    ghost predicate Valid()
      reads this, loop
    {
      && timeout < loop.nextId && 0 < loop.nextId && AckAt <= loop.now
      && (loop.sources == map[]
          || (0 < timeout && timeout in loop.sources && loop.sources.Keys == {timeout}
              && loop.now <= loop.sources[timeout].due && loop.sources[timeout].timer != NoTimer))
    }

    ghost function Model(): Client
      requires Valid()
      reads this, loop
    {
      var s := if timeout in loop.sources then loop.sources[timeout] else Source(NoTimer, AckAt);
      Client(state, listenMode, requestedIp, retryTimes, ackRetryTimes, Granted, leaseSeconds,
             loop.now - AckAt, s.timer, s.due - AckAt, Log)
    }

    constructor ()
      ensures Valid() && Model() == FRESH && fresh(loop)
    {
      loop := new MainLoop();
      state, listenMode, requestedIp, retryTimes, ackRetryTimes := Selecting, Closed, 0, 0, 0;
      leaseSeconds, timeout := 0, 0;
      Granted, AckAt, Log := 0, 0, [];
    }

    /** Set the timer when none is pending. */
    method AddTimer(t: Timer, seconds: nat)
      requires Valid() && loop.sources == map[] && t != NoTimer
      modifies this`timeout, loop
      ensures Valid() && Model() == SetTimer(old(Model()), t, seconds)
    {
      timeout := loop.TimeoutAddSeconds(t, seconds);
    }

    method DropTimer()
      requires loop.sources == map[] || (0 < timeout && loop.sources.Keys == {timeout})
      modifies loop
      ensures loop.sources == map[] && loop.now == old(loop.now) && loop.nextId == old(loop.nextId)
    {
      if timeout > 0 {
        loop.SourceRemove(timeout);
      }
      assert forall id :: id !in loop.sources;
    }

    method Start()
      requires Valid() && loop.sources == map[]
      modifies this, loop
      ensures Valid() && Model() == LeaseTimers.Start(old(Model()))
    {
      if retryTimes == DISCOVER_RETRIES {
        Log := Log + [NoLease(loop.now - AckAt)];
        retryTimes := 0;
        return;
      }
      if retryTimes == 0 {
        state := Selecting;
        listenMode := L2;
      }
      Log := Log + [DiscoverSent(loop.now - AckAt)];
      AddTimer(Discover, DISCOVER_TIMEOUT);
    }

    method DiscoverTimeout()
      requires Valid() && loop.sources == map[]
      modifies this, loop
      ensures Valid() && Model() == OnDiscover(old(Model()))
    {
      retryTimes := (retryTimes + 1) % COUNTER;
      Start();
    }

    method StartRequest()
      requires Valid() && loop.sources == map[]
      modifies this, loop
      ensures Valid() && Model() == LeaseTimers.StartRequest(old(Model()))
    {
      if retryTimes == REQUEST_RETRIES {
        Log := Log + [NoLease(loop.now - AckAt)];
        return;
      }
      if retryTimes == 0 {
        state := Requesting;
        listenMode := L2;
      }
      Log := Log + [SelectSent(loop.now - AckAt, requestedIp)];
      AddTimer(Request, REQUEST_TIMEOUT);
    }

    method RequestTimeout()
      requires Valid() && loop.sources == map[]
      modifies this, loop
      ensures Valid() && Model() == OnRequest(old(Model()))
    {
      retryTimes := (retryTimes + 1) % COUNTER;
      StartRequest();
    }

    method RecvOffer(ip: nat)
      requires Valid()
      modifies this, loop
      ensures Valid() && Model() == OnOffer(old(Model()), ip)
    {
      hide LeaseTimers.StartRequest;
      DropTimer();
      timeout := 0;
      retryTimes := 0;
      requestedIp := ip;
      state := Requesting;
      StartRequest();
    }

    method RestartDhcp(retries: nat)
      requires Valid()
      modifies this, loop
      ensures Valid() && Model() == Restart(old(Model()), retries)
    {
      hide LeaseTimers.Start;
      DropTimer();
      timeout := 0;
      retryTimes := retries;
      requestedIp := 0;
      state := Selecting;
      listenMode := L2;
      Start();
    }

    method RestartDhcpTimeout()
      requires Valid() && loop.sources == map[]
      modifies this, loop
      ensures Valid() && Model() == OnRestart(old(Model()))
    {
      ackRetryTimes := (ackRetryTimes + 1) % COUNTER;
      Log := Log + [NakRestart(loop.now - AckAt)];
      RestartDhcp(ackRetryTimes);
    }

    method StartBound()
      requires Valid()
      modifies this, loop
      ensures Valid() && Model() == LeaseTimers.StartBound(old(Model()))
    {
      DropTimer();
      state := Bound;
      AddTimer(StartRenew, leaseSeconds / 2);
    }

    method StartRebound()
      requires Valid() && loop.sources == map[]
      modifies this, loop
      ensures Valid() && Model() == SetTimer(old(Model()).(state := Rebinding), Timer.StartRebound, leaseSeconds / 2)
    {
      state := Rebinding;
      AddTimer(Timer.StartRebound, leaseSeconds / 2);
    }

    method StartRenewTimeout()
      requires Valid() && loop.sources == map[]
      modifies this, loop
      ensures Valid() && Model() == OnStartRenew(old(Model()))
    {
      state := Renewing;
      leaseSeconds := leaseSeconds / 2;
      listenMode := L3;
      if leaseSeconds <= 60 {
        StartRebound();
      } else {
        Log := Log + [RenewSent(loop.now - AckAt, requestedIp)];
        DropTimer();
        AddTimer(RenewRequest, REQUEST_TIMEOUT);
      }
    }

    method StartRenewRequestTimeout()
      requires Valid() && loop.sources == map[]
      modifies this`Log
      ensures Valid() && Model() == OnRenewRequest(old(Model()))
    {
      Log := Log + [NoLease(loop.now - AckAt)];
    }

    method StartReboundTimeout()
      requires Valid() && loop.sources == map[]
      modifies this, loop
      ensures Valid() && Model() == OnStartRebound(old(Model()))
    {
      hide Restart;
      listenMode := L2;
      leaseSeconds := leaseSeconds / 2;
      if leaseSeconds <= 6 {
        Log := Log + [Lost(loop.now - AckAt)];
        RestartDhcp(0);
      } else {
        Log := Log + [RebindSent(loop.now - AckAt, requestedIp)];
        AddTimer(Timer.StartRebound, leaseSeconds / 2);
      }
    }

    method RecvAck(option: Option<nat>)
      requires Valid()
      modifies this, loop
      ensures Valid() && Model() == OnAck(old(Model()), option)
    {
      hide GetLease;
      DropTimer();
      retryTimes, timeout, leaseSeconds, listenMode := 0, 0, GetLease(option), Closed;
      Granted, AckAt, Log := leaseSeconds, loop.now, Log + [Available];
      StartBound();
    }

    method RecvNak()
      requires Valid()
      modifies this, loop
      ensures Valid() && Model() == OnNak(old(Model()))
    {
      retryTimes := 0;
      DropTimer();
      AddTimer(Timer.RestartDhcp, 3);
    }

    method SendRelease()
      requires AckAt <= loop.now
      modifies this`Log
      ensures Log ==
              if HoldsLease(state) then old(Log) + [ReleaseSent(loop.now - AckAt, requestedIp)] else old(Log)
    {
      if HoldsLease(state) {
        Log := Log + [ReleaseSent(loop.now - AckAt, requestedIp)];
      }
    }

    method Clear()
      modifies this
      ensures timeout == retryTimes == ackRetryTimes == requestedIp == leaseSeconds == 0
      ensures state == Released && listenMode == Closed
      ensures Granted == old(Granted) && AckAt == old(AckAt) && Log == old(Log)
    {
      timeout, retryTimes, ackRetryTimes, requestedIp, leaseSeconds := 0, 0, 0, 0, 0;
      state, listenMode := Released, Closed;
    }

    method Stop()
      requires Valid()
      modifies this, loop
      ensures Valid() && Model() == Halt(old(Model()))
    {
      SendRelease();
      DropTimer();
      Clear();
      Log := Log + [Stopped];
    }

    /** A timer that fires is gone before its callback runs, as every callback returns FALSE. */
    method Fire(id: nat)
      requires Valid() && id in loop.sources
      modifies this, loop
      ensures Valid() && Model() == LeaseTimers.Fire(old(Model()))
    {
      hide OnDiscover, OnRequest, OnStartRenew, OnRenewRequest, OnStartRebound, OnRestart;
      var s := loop.sources[id];
      loop.now := s.due;
      loop.SourceRemove(id);
      assert forall i :: i !in loop.sources;
      match s.timer {
        case Discover => DiscoverTimeout();
        case Request => RequestTimeout();
        case StartRenew => StartRenewTimeout();
        case RenewRequest => StartRenewRequestTimeout();
        case StartRebound => StartReboundTimeout();
        case RestartDhcp => RestartDhcpTimeout();
      }
    }

    method PassTime(now: nat)
      requires Valid() && loop.now <= now && InTime(Model(), now - AckAt)
      modifies loop
      ensures Valid() && Model() == old(Model()).(elapsed := now - AckAt) && loop.sources == old(loop.sources)
    {
      loop.now := now;
    }

    /** One turn of the main loop: any of its timers fires when it is due, or something else
        happens before that. Events are timed from the last acknowledgement. */
    method Dispatch(e: Event, id: nat, now: nat)
      requires Valid() && Inv(Model()) && Enabled(Model(), e)
      requires if e.TimerDue? then id in loop.sources else now == AckAt + e.at
      modifies this, loop
      ensures Valid() && Model() == Step(old(Model()), e) && Inv(Model())
    {
      StepInv(Model(), e);
      hide Inv, LeaseTimers.Fire, LeaseTimers.Start, Halt, OnOffer, OnAck, OnNak;
      if e.TimerDue? {
        Fire(id);
        return;
      }
      PassTime(now);
      match e {
        case Begin(_) => Start();
        case End(_) => Stop();
        case Offer(_, ip) => RecvOffer(ip);
        case Ack(_, option) => RecvAck(option);
        case Nak(_) => RecvNak();
      }
    }
  }
}

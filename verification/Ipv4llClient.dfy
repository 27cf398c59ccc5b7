/** The client of Ipv4ll as the source keeps it: an object whose fields the timer
    callbacks and the ARP handler assign, beside a main loop that owns the timers.
    Each method has exactly the effect of the function it is named after. */
module Ipv4llClient {
  import opened Ipv4ll

  /** The timers of the GLib main loop. */
  class MainLoop {
    var sources: map<nat, Timer>
    var nextId: nat

    constructor ()
      ensures sources == map[] && nextId == 1
    {
      sources, nextId := map[], 1;
    }

    method TimeoutAdd(t: Timer) returns (id: nat)
      modifies this
      ensures id == old(nextId) && nextId == id + 1 && sources == old(sources)[id := t]
    {
      id := nextId;
      sources := sources[id := t];
      nextId := nextId + 1;
    }

    method SourceRemove(id: nat)
      modifies this
      ensures nextId == old(nextId) && sources == old(sources) - {id}
    {
      sources := sources - {id};
    }
  }

  class DhcpClient {
    const loop: MainLoop
    var state: State
    var retryTimes: nat
    var conflicts: nat
    var requestedIp: nat
    var listening: bool
    var timeout: nat
    ghost var Log: seq<Action>

    ghost function Model(): Client
      reads this, loop
    {
      Client(state, retryTimes, conflicts, requestedIp, listening, timeout, loop.sources, loop.nextId, Log)
    }

    constructor ()
      ensures Model() == FRESH && fresh(loop)
    {
      loop := new MainLoop();
      state, retryTimes, conflicts, requestedIp := Init, 0, 0, 0;
      listening, timeout, Log := false, 0, [];
    }

    method DropTimer()
      modifies loop
      ensures Model() == RemoveTimer(old(Model()))
    {
      if timeout > 0 {
        loop.SourceRemove(timeout);
      }
    }

    method SendProbePacket(pick: nat)
      modifies this, loop
      ensures Model() == Ipv4ll.SendProbePacket(old(Model()), pick)
    {
      if requestedIp == 0 {
        requestedIp := pick;
      }
      if retryTimes == 1 {
        state := Probe;
        listening := true;
      }
      Log := Log + [ProbeSent(requestedIp)];
      timeout := loop.TimeoutAdd(Timer.ProbeTimeout);
    }

    method SendAnnouncePacket()
      modifies this, loop
      ensures Model() == Ipv4ll.SendAnnouncePacket(old(Model()))
    {
      Log := Log + [AnnounceSent(requestedIp)];
      DropTimer();
      timeout := 0;
      if state == Defend {
        timeout := loop.TimeoutAdd(Timer.DefendTimeout);
      } else {
        timeout := loop.TimeoutAdd(Timer.AnnounceTimeout);
      }
    }

    method Start(pick: nat)
      modifies this, loop
      ensures Model() == Ipv4ll.Start(old(Model()), pick)
    {
      Log := Log + [Started];
      state := Init;
      DropTimer();
      listening := false;
      retryTimes := 0;
      requestedIp := pick;
      retryTimes := retryTimes + 1;
      timeout := loop.TimeoutAdd(SendProbe);
    }

    method Ipv4llStop()
      modifies this, loop
      ensures Model() == Ipv4ll.Stop(old(Model()))
    {
      listening := false;
      DropTimer();
      state := Probe;
      retryTimes := 0;
      requestedIp := 0;
    }

    method Stop()
      modifies this, loop
      ensures Model() == Ipv4ll.Halt(old(Model()))
    {
      listening := false;
      if timeout > 0 {
        DropTimer();
        timeout := 0;
      }
      retryTimes := 0;
      requestedIp := 0;
      state := Released;
      Log := Log + [Stopped];
    }

    method RecvArpPacket(spa: nat, tpa: nat)
      modifies this, loop
      ensures Model() == Ipv4ll.OnArp(old(Model()), spa, tpa)
    {
      hide Ipv4ll.SendAnnouncePacket, Ipv4ll.Stop;
      var source, target := spa == requestedIp, tpa == requestedIp;
      if !source && !target {
        return;
      }
      conflicts := (conflicts + 1) % 256;
      Log := Log + [Conflict(conflicts)];
      if state == Monitor {
        if !source {
          return;
        }
        state := Defend;
        SendAnnouncePacket();
        return;
      }
      if state == Defend {
        if !source {
          return;
        }
        Log := Log + [Lost];
      }
      Ipv4llStop();
      if conflicts < MAX_CONFLICTS {
        retryTimes := retryTimes + 1;
        Log := Log + [Restarted(conflicts)];
        timeout := loop.TimeoutAdd(SendProbe);
      } else {
        Log := Log + [Failed];
      }
    }

    method ProbeTimeout(pick: nat)
      modifies this, loop
      ensures Model() == OnProbeTimeout(old(Model()), pick)
    {
      if retryTimes == PROBE_NUM {
        state := Announce;
        retryTimes := 0;
        retryTimes := retryTimes + 1;
        SendAnnouncePacket();
        return;
      }
      retryTimes := retryTimes + 1;
      SendProbePacket(pick);
    }

    method AnnounceTimeout()
      modifies this, loop
      ensures Model() == OnAnnounceTimeout(old(Model()))
    {
      if retryTimes != ANNOUNCE_NUM {
        retryTimes := retryTimes + 1;
        SendAnnouncePacket();
        return;
      }
      state := Monitor;
      Log := Log + [Claimed(requestedIp)];
      conflicts := 0;
    }

    method DefendTimeout()
      modifies this
      ensures Model() == OnDefendTimeout(old(Model()))
    {
      conflicts := 0;
      state := Monitor;
      Log := Log + [Calmed];
    }

    /** The main loop: a timer that fires is gone before its callback runs, as every
        callback returns FALSE. */
    method Dispatch(e: Event)
      requires Inv(Model()) && Enabled(Model(), e)
      modifies this, loop
      ensures Model() == Step(old(Model()), e) && Inv(Model())
    {
      StepInv(Model(), e);
      hide Inv;
      match e {
        case Begin(pick) => Start(pick);
        case End => Stop();
        case Arp(spa, tpa) => RecvArpPacket(spa, tpa);
        case Fire(id, pick) =>
          var t := loop.sources[id];
          loop.SourceRemove(id);
          match t {
            case SendProbe => SendProbePacket(pick);
            case ProbeTimeout => ProbeTimeout(pick);
            case AnnounceTimeout => AnnounceTimeout();
            case DefendTimeout => DefendTimeout();
          }
      }
    }
  }
}

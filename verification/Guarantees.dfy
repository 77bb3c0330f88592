/** What the protocol guarantees in every run, and from every joint state. */
module Guarantees {
  import opened Machine
  import opened Fifo
  import Radio
  import Bridge
  import opened Packets
  import opened Osc
  import opened Device
  import opened Host
  import opened Wire
  import opened Lease
  import opened Subsequence
  import opened Protocol

  /** Both programs have just been started; nothing is under way. */
  predicate IsStart(w: World): (start: bool)
    ensures start ==> Links(w)
  {
    && w.board == Bridge.INITIAL && w.ticks == 0 && w.lastTick <= w.now
    && !w.dev.bound && w.dev.boundtime == w.dev.lastshot == 0
    && !w.host.valid
    && w.toHost == [] && w.toDev == [] && w.returned == [] && w.init == None
  }

  lemma GoodKept(w: World, e: WorldEvent)
    requires Good(w) && CanHappen(w, e)
    ensures Good(WorldStep(w, e))
  {
    hide Links, Ordered, Timed, CanHappen, WorldStep;
    LinksKept(w, e);
    OrderedKept(w, e);
    TimedKept(w, e);
  }

  ghost predicate IsRun(w: World, events: seq<WorldEvent>)
    requires Links(w)
    decreases |events|
  {
    events == [] || (CanHappen(w, events[0]) && (LinksKept(w, events[0]); IsRun(WorldStep(w, events[0]), events[1..])))
  }

  /** The world after a run. */
  ghost function After(w: World, events: seq<WorldEvent>): (v: World)
    requires Links(w) && IsRun(w, events)
    ensures Links(v)
    decreases |events|
  {
    if events == [] then w
    else
      LinksKept(w, events[0]);
      After(WorldStep(w, events[0]), events[1..])
  }

  lemma StartIsGood(w: World)
    requires IsStart(w)
    ensures Good(w)
  {
    assert InTransit(w.toHost) == [];
    assert Pipeline(w) == [];
  }

  lemma {:induction false} RunIsGood(w: World, events: seq<WorldEvent>)
    requires Good(w) && IsRun(w, events)
    ensures Good(After(w, events))
    decreases |events|
  {
    hide Links, Ordered, Timed, CanHappen, WorldStep;
    if events == [] {
    } else {
      GoodKept(w, events[0]);
      RunIsGood(WorldStep(w, events[0]), events[1..]);
    }
  }

  /** End to end, over a network that loses packets but keeps their order: what the host's caller gets
      is, byte for byte, an increasing choice of the frames the radio interrupt pushed. */
  lemma EndToEnd(start: World, events: seq<WorldEvent>) returns (at: seq<nat>)
    requires IsStart(start) && IsRun(start, events)
    ensures var w := After(start, events);
      && |at| == |w.returned|
      && (forall i :: 0 <= i < |at| ==> at[i] < |w.board.pushed| && w.returned[i] == w.board.pushed[at[i]])
      && (forall i, j :: 0 <= i < j < |at| ==> at[i] < at[j])
  {
    hide Subseq, InTransit, After, IsRun, Links, Timed;
    StartIsGood(start);
    RunIsGood(start, events);
    var w := After(start, events);
    var rest := InTransit(w.toHost) + w.board.link.rx;
    assert Pipeline(w) == w.returned + rest + [];
    SubseqWithoutBlock<seq<uint8>>(w.returned, rest, [], w.board.pushed);
    assert w.returned + [] == w.returned;
    at := SubseqChoice<seq<uint8>>(w.returned, w.board.pushed);
  }

  /** A frame reaches the host's caller only while the host holds a binding to the device. */
  lemma AcceptedOnlyWhileBound(start: World, events: seq<WorldEvent>, e: WorldEvent)
    requires IsStart(start) && IsRun(start, events)
    requires CanHappen(After(start, events), e)
    ensures var w := After(start, events);
      WorldStep(w, e).returned != w.returned ==>
        && w.host.valid && w.host.addr == DEVICE
        && e.HostReceive? && w.toHost[0].message.Io?
        && WorldStep(w, e).returned == w.returned + [w.toHost[0].message.frame]
  {
    hide After, IsRun, HostTake, Periodic, Unicast, Renew, Deliver, Encode, Carries, Bridge.Step, Bridge.Inv;
    StepAccepts(After(start, events), e);
  }

  lemma StepAccepts(w: World, e: WorldEvent)
    requires Links(w) && CanHappen(w, e)
    ensures WorldStep(w, e).returned != w.returned ==>
      && w.host.valid && w.host.addr == DEVICE
      && e.HostReceive? && w.toHost[0].message.Io?
      && WorldStep(w, e).returned == w.returned + [w.toHost[0].message.frame]
  {
    hide HostTake, Periodic, Unicast, Renew, Deliver, Encode, Carries, Bridge.Step, Bridge.Inv;
    if e.HostReceive? {
      HostTakes(w, e.packet);
    }
  }

  /** Lease safety: as long as the host takes its binding to be alive, the device is bound to it, and has
      both of its addresses. */
  lemma LeaseSafety(start: World, events: seq<WorldEvent>)
    requires IsStart(start) && IsRun(start, events)
    ensures var w := After(start, events);
      w.host.valid && w.now < w.host.timeout ==> w.dev.bound && w.dev.remoteIp == w.ip && w.dev.remoteMac == w.mac
  {
    hide Ordered, After, IsRun, Bridge.Inv, Deliverable, Carries;
    StartIsGood(start);
    RunIsGood(start, events);
  }

  // ----- Recovery -----

  /** A poll sends a DISCOVER exactly when there is no live binding and the last packet of the periodic
      part is a second ago; in particular a stale binding does not keep it from doing so. */
  lemma DiscoverIsDue(d: Dev, rx: seq<Frame>, button: bool, jiffies: uint16)
    ensures var out := Periodic(d, rx, button, jiffies).2;
      (out.Some? && out.value.message == Some(Discover)) <==>
        (!d.bound || button || Since(jiffies, d.boundtime) > NET_TIMEOUT * HZ) && Since(jiffies, d.lastshot) >= HZ
  {
    hide Datagram, Filled;
  }

  /**
   From every joint state of the two programs, the delivery of a DISCOVER and of the INIT and the BOUND
   it leads to ends with the device bound to the host and the host bound to the device for seven
   seconds. The states in which the three packets find their receivers are arbitrary: nothing is
   required of what either side did before or in between.
   */
  lemma Recovery(d0: Dev, rx: seq<Frame>, button: bool, tick0: uint16, h0: Remote, time0: int,
                 init: seq<uint8>, mac: Mac, ip: Ip4, d1: Dev, tick1: uint16, h1: Remote, time1: int, size: nat)
    requires var out := Periodic(d0, rx, button, tick0).2; out.Some? && out.value.message == Some(Discover)
    requires Carries(init, mac, ip, Encode(Init))
    ensures var got := Deliver(Periodic(d0, rx, button, tick0).2.value.packet, mac, ip);
      && got.Some?
      && Receive(h0, Addr(got.value.src, got.value.port), got.value.payload, time0, size).1.sent
         == [Sent(DEVICE, Encode(Init))]
    ensures Tractable(Splice(d1.buf, 0, init))
    ensures var (d2, answer) := Unicast(d1, init, tick1);
      && d2.bound && d2.boundtime == tick1 && d2.remoteIp == ip && d2.remoteMac == mac
      && answer.Some?
      && var got := Deliver(answer.value.packet, mac, ip);
      && got.Some?
      && var h2 := Receive(h1, Addr(got.value.src, got.value.port), got.value.payload, time1, size).0;
      && h2.valid && h2.addr == DEVICE && h2.timeout == time1 + 7 * SECOND
  {
    hide Datagram, Filled, Deliver, Encode, Receive, Unicast, Carries, Splice;
    DatagramDelivered(d0.buf, Ones(6), Ones(4), Discover, mac, ip);
    OnDiscover(h0, DEVICE, time0, size);
    InitBinds(d1, init, mac, ip, tick1);
    OnBound(h1, DEVICE, ip, mac, time1, size);
  }

  // ----- Renewal -----

  /** After the start of every call of `net_poll` the host is bound only with time left. A binding whose time
      is over is given up, and one INIT is on its way to the device it was bound to. */
  lemma RenewedOrGivenUp(w: World, packet: seq<uint8>)
    requires Links(w) && CanHappen(w, HostRenew(packet))
    ensures var c := WorldStep(w, HostRenew(packet));
      && (c.host.valid ==> c.now < c.host.timeout)
      && (if w.host.valid && w.host.timeout <= w.now then
            !c.host.valid && c.toDev == w.toDev + [packet] && c.returned == w.returned && c.toHost == w.toHost
          else c == w)
  {
    hide Encode, Carries, InitBuf;
    assert w.toDev + [] == w.toDev;
  }

  /** And the renewal works: when the INIT and the BOUND are delivered, the device is bound to the host and
      the host to the device for seven more seconds. */
  lemma RenewalSucceeds(w: World, init: seq<uint8>, other: seq<uint8>)
    requires Links(w) && w.host.valid && w.host.timeout <= w.now && w.toHost == [] && w.toDev == []
    requires Carries(init, w.mac, w.ip, Encode(Init)) && Carries(other, w.mac, w.ip, Encode(Init))
    ensures IsRun(w, [HostRenew(init), DevReceive, HostReceive(other)])
    ensures var c := After(w, [HostRenew(init), DevReceive, HostReceive(other)]);
      && c.dev.bound && c.dev.boundtime == Jiffies(w.ticks) && c.dev.remoteIp == w.ip && c.dev.remoteMac == w.mac
      && c.host.valid && c.host.addr == DEVICE && c.host.timeout == w.now + 7 * SECOND
      && c.returned == w.returned && c.toHost == [] && c.toDev == []
  {
    hide Encode, Carries, WorldStep, Deliver;
    var w1 := WorldStep(w, HostRenew(init));
    RenewedOrGivenUp(w, init);
    LinksKept(w, HostRenew(init));
    RenewFrame(w, init);
    var w2 := WorldStep(w1, DevReceive);
    DeviceBinds(w1);
    LinksKept(w1, DevReceive);
    var w3 := WorldStep(w2, HostReceive(other));
    HostBinds(w2, other);
    LinksKept(w2, HostReceive(other));
    ThreeEvents(w, HostRenew(init), DevReceive, HostReceive(other));
  }

  /** The start of a call touches only the host and the channel. */
  lemma RenewFrame(w: World, packet: seq<uint8>)
    requires Links(w) && CanHappen(w, HostRenew(packet))
    ensures var c := WorldStep(w, HostRenew(packet));
      && c == w.(host := c.host, toDev := c.toDev) && c.host.addr == w.host.addr
  {
    hide Encode, Carries, InitBuf;
  }

  /** The oldest INIT binds the device, and its BOUND goes on its way. */
  lemma DeviceBinds(w: World)
    requires Links(w) && w.toDev != []
    ensures var c := WorldStep(w, DevReceive);
      && c.dev.bound && c.dev.boundtime == Jiffies(w.ticks) && c.dev.remoteIp == w.ip && c.dev.remoteMac == w.mac
      && c.toDev == w.toDev[1..] && |c.toHost| == |w.toHost| + 1 && c.toHost[..|w.toHost|] == w.toHost
      && c.toHost[|w.toHost|].message.Bound? && c.toHost[|w.toHost|].at == w.now
      && c == w.(dev := c.dev, toDev := c.toDev, toHost := c.toHost, init := c.init)
  {
    hide Unicast, Deliver, Encode, Bridge.Inv, Splice;
    InitBinds(w.dev, w.toDev[0], w.mac, w.ip, Jiffies(w.ticks));
  }

  /** The BOUND, when it is the oldest packet, binds the host. */
  lemma HostBinds(w: World, packet: seq<uint8>)
    requires Links(w) && CanHappen(w, HostReceive(packet)) && w.toHost[0].message.Bound?
    ensures var c := WorldStep(w, HostReceive(packet));
      && c.host.valid && c.host.addr == DEVICE && c.host.timeout == w.now + 7 * SECOND
      && c == w.(host := c.host, toHost := w.toHost[1..])
  {
    hide HostTake, Deliver, Encode, Carries, Bridge.Inv;
    HostTakes(w, packet);
  }

  lemma ThreeEvents(w: World, a: WorldEvent, b: WorldEvent, c: WorldEvent)
    requires Links(w) && CanHappen(w, a)
    requires Links(WorldStep(w, a)) && CanHappen(WorldStep(w, a), b)
    requires var v := WorldStep(WorldStep(w, a), b); Links(v) && CanHappen(v, c)
    ensures IsRun(w, [a, b, c])
    ensures After(w, [a, b, c]) == WorldStep(WorldStep(WorldStep(w, a), b), c)
  {
    hide WorldStep, CanHappen, Links;
    var v1 := WorldStep(w, a);
    var v2 := WorldStep(v1, b);
    var v3 := WorldStep(v2, c);
    LinksKept(v2, c);
    assert [a, b, c][1..] == [b, c] && [b, c][1..] == [c] && [c][1..] == [];
    assert IsRun(v3, []);
    assert IsRun(v2, [c]) && After(v2, [c]) == After(v3, []) == v3;
    assert IsRun(v1, [b, c]) && After(v1, [b, c]) == v3;
  }

  /** No BOUND is received in this run. */
  ghost predicate NoBoundTaken(w: World, events: seq<WorldEvent>)
    requires Links(w) && IsRun(w, events)
    decreases |events|
  {
    events == [] ||
    (&& (events[0].HostReceive? ==> !w.toHost[0].message.Bound?)
     && (LinksKept(w, events[0]); NoBoundTaken(WorldStep(w, events[0]), events[1..])))
  }

  /** Without a binding nothing is returned in any run until a BOUND is received. */
  lemma {:induction false} NothingUntilBound(w: World, events: seq<WorldEvent>)
    requires Links(w) && IsRun(w, events) && NoBoundTaken(w, events) && !w.host.valid
    ensures After(w, events).returned == w.returned && !After(w, events).host.valid
    decreases |events|
  {
    hide WorldStep, CanHappen, Links;
    if events == [] {
    } else {
      LinksKept(w, events[0]);
      StaysUnbound(w, events[0]);
      NothingUntilBound(WorldStep(w, events[0]), events[1..]);
    }
  }

  lemma StaysUnbound(w: World, e: WorldEvent)
    requires Links(w) && CanHappen(w, e) && !w.host.valid && (e.HostReceive? ==> !w.toHost[0].message.Bound?)
    ensures WorldStep(w, e).returned == w.returned && !WorldStep(w, e).host.valid
  {
    hide HostTake, Periodic, Unicast, Deliver, Encode, Carries, Bridge.Step, Bridge.Inv, InitBuf;
    if e.HostReceive? {
      HostTakes(w, e.packet);
    }
  }

  /** So a call of `net_poll` that finds the binding's time over returns no frame, and neither does any later
      one before a BOUND. */
  lemma NoFrameAfterExpiry(w: World, packet: seq<uint8>, events: seq<WorldEvent>)
    requires Links(w) && CanHappen(w, HostRenew(packet)) && w.host.valid && w.host.timeout <= w.now
    requires Links(WorldStep(w, HostRenew(packet))) && IsRun(WorldStep(w, HostRenew(packet)), events)
    requires NoBoundTaken(WorldStep(w, HostRenew(packet)), events)
    ensures After(WorldStep(w, HostRenew(packet)), events).returned == w.returned
  {
    hide WorldStep, IsRun, NoBoundTaken, After, Links, CanHappen;
    RenewedOrGivenUp(w, packet);
    NothingUntilBound(WorldStep(w, HostRenew(packet)), events);
  }

  // ----- A frame on its way -----

  /** With both bindings alive and nothing lost, the oldest frame the radio has received is what the host's
      caller gets next, and it has left the receive ring. */
  lemma FrameGetsThrough(w: World, packet: seq<uint8>)
    requires Links(w) && Alive(w) && w.host.valid && w.board.link.rx != [] && w.toHost == []
    requires Carries(packet, w.mac, w.ip, Encode(Init))
    ensures var v := WorldStep(w, DevPoll);
      && Links(v) && CanHappen(v, HostReceive(packet))
      && var c := WorldStep(v, HostReceive(packet));
      && c.returned == w.returned + [w.board.link.rx[0]]
      && w.board.link.rx == [w.board.link.rx[0]] + c.board.link.rx
      && c.toHost == [] && c.host.valid && c.dev.bound
  {
    hide DevicePoll, HostTake, Encode, Carries, Deliver, Bridge.Inv;
    PollEffect(w);
    StaysAlive(w);
    LinksKept(w, DevPoll);
    HostTakes(DevicePoll(w), packet);
  }

  lemma StaysAlive(w: World)
    requires Alive(w)
    ensures DevicePoll(w).dev.bound
  {
    hide Datagram, Filled;
    PollSends(w.dev, w.board.link.rx, false, Jiffies(w.ticks));
  }

  /** A frame from the radio joins the end of what is under way, unless four wait already. */
  lemma RadioJoins(w: World, txDs: bool, pipe: nat, frame: Frame)
    requires Links(w) && pipe <= 5
    requires CanHappen(w, Local(Bridge.Interrupt(Radio.Status(true, txDs), Radio.Received(pipe, 16, frame))))
    ensures var v := WorldStep(w, Local(Bridge.Interrupt(Radio.Status(true, txDs), Radio.Received(pipe, 16, frame))));
      if |w.board.link.rx| < 4 then
        Pipeline(v) == Pipeline(w) + [frame] && v.board.pushed == w.board.pushed + [frame]
      else Pipeline(v) == Pipeline(w) && v.board.pushed == w.board.pushed
  {
    hide Bridge.Step, InTransit, Links;
    Bridge.ReceivedExactly(w.board, txDs, pipe, 16, frame);
    Assoc(w.returned + InTransit(w.toHost), w.board.link.rx, [frame]);
  }

  /** The loss of a packet takes its frame, if it carries one, and nothing else. */
  lemma LossTakesOne(w: World, i: nat)
    requires Links(w)
    ensures i < |w.toHost| ==>
      var v := WorldStep(w, LoseToHost(i));
      var head, tail := w.returned + InTransit(w.toHost[..i]), InTransit(w.toHost[i + 1..]) + w.board.link.rx;
      && v == w.(toHost := v.toHost)
      && Pipeline(w) == head + Carried(w.toHost[i]) + tail && Pipeline(v) == head + tail
    ensures i < |w.toDev| ==> WorldStep(w, LoseToDev(i)) == w.(toDev := w.toDev[..i] + w.toDev[i + 1..])
  {
    hide InTransit, Carried, Links;
    if i < |w.toHost| {
      InTransitAround(w.toHost, i);
    }
  }

  // ----- Silence -----

  /** Nothing but `n` timer ticks, five milliseconds apart. */
  function Waits(n: nat): seq<WorldEvent> {
    if n == 0 then [] else [Pass(TICK), Tick] + Waits(n - 1)
  }

  lemma {:induction false} WaitsRun(w: World, n: nat)
    requires Links(w) && w.lastTick <= w.now
    ensures IsRun(w, Waits(n))
    ensures After(w, Waits(n)) == w.(ticks := w.ticks + n, now := w.now + n * TICK,
                                    lastTick := if n == 0 then w.lastTick else w.now + n * TICK)
    decreases n
  {
    hide Links;
    if n == 0 {
    } else {
      var w1 := WorldStep(w, Pass(TICK));
      LinksKept(w, Pass(TICK));
      var w2 := WorldStep(w1, Tick);
      LinksKept(w1, Tick);
      WaitsRun(w2, n - 1);
      var events := Waits(n);
      assert events[1..] == [Tick] + Waits(n - 1) && events[1..][1..] == Waits(n - 1);
    }
  }

  /** If nothing reaches either side for 2001 ticks, both give up what binding they have, whatever is under way:
      the device at its next poll, the host at the start of its next call. */
  lemma SilenceUnbinds(w: World, init: seq<uint8>)
    requires Good(w) && (w.dev.bound ==> Alive(w)) && Carries(init, w.mac, w.ip, Encode(Init))
    ensures IsRun(w, Waits(2001))
    ensures var v := After(w, Waits(2001));
      && !WorldStep(v, DevPoll).dev.bound
      && CanHappen(v, HostRenew(init)) && !WorldStep(v, HostRenew(init)).host.valid
  {
    hide Links, Ordered, Timed, Alive, WorldStep, After, IsRun, Waits, Encode, Carries, Renew;
    NotInTheFuture(w);
    WaitsRun(w, 2001);
    var v := After(w, Waits(2001));
    DeviceIsLate(w, v);
    HostIsLate(w, v);
    RenewedOrGivenUp(v, init);
    PollUnbinds(v);
  }

  lemma NotInTheFuture(w: World)
    requires Timed(w)
    ensures w.lastTick <= w.now
  {}

  lemma DeviceIsLate(w: World, v: World)
    requires (w.dev.bound ==> Alive(w)) && v.dev == w.dev && v.ticks == w.ticks + 2001
    ensures !Alive(v)
  {
    assert (v.ticks % 0x1_0000 - w.dev.boundtime) % 0x1_0000
        == ((w.ticks % 0x1_0000 - w.dev.boundtime) % 0x1_0000 + 2001) % 0x1_0000;
  }

  lemma HostIsLate(w: World, v: World)
    requires Timed(w) && v.host == w.host && v.now == w.now + 2001 * TICK
    ensures v.host.valid ==> v.host.timeout <= v.now
  {}

  lemma PollUnbinds(w: World)
    requires Links(w)
    ensures WorldStep(w, DevPoll).dev.bound <==> Alive(w)
  {
    hide Datagram, Filled, Links;
    PollSends(w.dev, w.board.link.rx, false, Jiffies(w.ticks));
  }
}

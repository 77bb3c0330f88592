/**
 One device and one host over a network that may lose packets but neither reorders nor duplicates
 them. A step is an atomic step of the device, a part of `net_poll` on the host up to its next
 wait, a loss, a timer tick or the passing of time.
 */
module Protocol {
  import opened Machine
  import opened Fifo
  import opened Radio
  import opened Bridge
  import opened Packets
  import opened Osc
  import opened Device
  import opened Host
  import opened Wire
  import opened Lease
  import opened Subsequence

  /** A packet on its way to the host, the message in it, and when it was sent. */
  datatype InFlight = InFlight(packet: seq<uint8>, message: Message, at: nat)

  /** The tick and the time at which the device handled an INIT. */
  datatype InitSeen = InitSeen(tick: nat, at: nat)

  /** Times are in microseconds; `returned` is what the host's `net_poll` has given to its caller. */
  datatype World = World(ip: Ip4, mac: Mac, board: Board, dev: Dev, host: Remote, ticks: nat, lastTick: nat, now: nat,
                         toHost: seq<InFlight>, toDev: seq<seq<uint8>>, returned: seq<seq<uint8>>,
                         init: Option<InitSeen>)

  /** Where the host sees the device's datagrams come from. */
  const DEVICE: Addr := Addr(MY_IP, PORT)

  /** Ticks are at least this far apart: HZ is an upper bound of the timer's rate. */
  const TICK := 5_000

  /** `packet` is what the host's kernel makes of an INIT, if one is sent. */
  datatype WorldEvent =
    | Tick
    | Pass(us: nat)
    | Local(event: Bridge.Event)
    | DevPoll
    | DevReceive
    | DevOther(packet: seq<uint8>, kept: bool)
    | LoseToHost(i: nat)
    | LoseToDev(i: nat)
    | HostRenew(packet: seq<uint8>)
    | HostReceive(packet: seq<uint8>)

  predicate CanHappen(w: World, e: WorldEvent) {
    match e
    case Tick => w.now >= w.lastTick + TICK
    case Pass(us) => true
    case Local(event) => !event.NetForward? && Possible(w.board, event)
    case DevPoll => true
    case DevReceive => w.toDev != []
    // Anything but an INIT may reach the device, from anyone.
    case DevOther(packet, kept) =>
      && |packet| <= NETBUF_SZ
      && (kept && packet != [] ==> Tractable(Splice(w.dev.buf, 0, packet)) && !Inits(w.dev, packet))
    case LoseToHost(i) => i < |w.toHost|
    case LoseToDev(i) => i < |w.toDev|
    case HostRenew(packet) => Carries(packet, w.mac, w.ip, Encode(Init))
    case HostReceive(packet) =>
      && w.toHost != [] && Carries(packet, w.mac, w.ip, Encode(Init))
      // A BOUND that is received at all is received within three seconds of the INIT it answers.
      && (w.toHost[0].message.Bound? ==> w.now < w.toHost[0].at + 3 * SECOND)
  }

  /** The packets sent by the device join the channel. */
  function Emit(w: World, out: Option<Output>): seq<InFlight> {
    if out.Some? && out.value.message.Some? then [InFlight(out.value.packet, out.value.message.value, w.now)] else []
  }

  /** The board after a poll has left `rx` on the receive ring and sent `out`. */
  function AfterPoll(b: Board, rx: seq<Frame>, out: Option<Output>): Board {
    if out.Some? && out.value.message.Some? && out.value.message.value.Io? then
      b.(link := b.link.(rx := rx), taken := b.taken + [Taken(Net, out.value.message.value.frame)])
    else b.(link := b.link.(rx := rx))
  }

  /** The periodic part of the device's `net_poll`, on the board's own receive ring. */
  function DevicePoll(w: World): World {
    var (d, rx, out) := Periodic(w.dev, w.board.link.rx, false, Jiffies(w.ticks));
    w.(dev := d, board := AfterPoll(w.board, rx, out), toHost := w.toHost + Emit(w, out))
  }

  /** The receiving part, on the oldest packet. */
  function DeviceReceive(w: World): World
    requires w.toDev != [] && |w.toDev[0]| <= NETBUF_SZ
    requires w.toDev[0] == [] || Tractable(Splice(w.dev.buf, 0, w.toDev[0]))
  {
    var (d, out) := Unicast(w.dev, w.toDev[0], Jiffies(w.ticks));
    w.(dev := d, toDev := w.toDev[1..], toHost := w.toHost + Emit(w, out),
       init := if out.Some? && out.value.message.Some? then Some(InitSeen(w.ticks, w.now)) else w.init)
  }

  /** The packets that reach the device among those the host sends. */
  function Post(sent: seq<Sent>, packet: seq<uint8>): seq<seq<uint8>> {
    if sent != [] && sent[|sent| - 1].to == DEVICE then [packet] else []
  }

  function HostTake(w: World, packet: seq<uint8>): World
    requires w.toHost != []
  {
    var v := w.(toHost := w.toHost[1..]);
    match Deliver(w.toHost[0].packet, w.mac, w.ip)
    case None => v
    case Some(d) =>
      var (h, r) := Receive(w.host, Addr(d.src, d.port), d.payload, w.now, PAYLOAD_SIZE);
      v.(host := h, toDev := w.toDev + Post(r.sent, packet),
         returned := if r.ret == AGAIN then w.returned else w.returned + [r.data])
  }

  function WorldStep(w: World, e: WorldEvent): World
    requires CanHappen(w, e) && Links(w)
  {
    match e
    case Tick => w.(ticks := w.ticks + 1, lastTick := w.now)
    case Pass(us) => w.(now := w.now + us)
    case Local(event) => w.(board := Bridge.Step(w.board, event))
    case DevPoll => DevicePoll(w)
    case DevReceive =>
      InitBinds(w.dev, w.toDev[0], w.mac, w.ip, Jiffies(w.ticks));
      DeviceReceive(w)
    case DevOther(packet, kept) => w.(dev := Device.Poll(w.dev, packet, kept, Jiffies(w.ticks)).0)
    case LoseToHost(i) => w.(toHost := Without(w.toHost, i))
    case LoseToDev(i) => w.(toDev := Without(w.toDev, i))
    case HostRenew(packet) =>
      var (h, sent) := Renew(w.host, w.now);
      w.(host := h, toDev := w.toDev + Post(sent, packet))
    case HostReceive(packet) => HostTake(w, packet)
  }

  // ----- The invariant -----

  /** A packet on its way to the host is one of the device's messages, and will be delivered as such. */
  predicate Deliverable(w: World, f: InFlight) {
    !f.message.Init? && Deliver(f.packet, w.mac, w.ip) == Some(Datagram4(MY_IP, PORT, Encode(f.message)))
  }

  predicate Links(w: World) {
    && Bridge.Inv(w.board)
    && (forall i :: 0 <= i < |w.toHost| ==> Deliverable(w, w.toHost[i]))
    && (forall i :: 0 <= i < |w.toDev| ==> Carries(w.toDev[i], w.mac, w.ip, Encode(Init)))
    && (w.host.valid ==> w.host.addr == DEVICE)
    && (w.dev.bound ==> w.dev.remoteIp == w.ip && w.dev.remoteMac == w.mac && w.init.Some?)
  }

  /** The radio frame in a packet, if there is one. */
  function Carried(f: InFlight): seq<seq<uint8>> {
    if f.message.Io? then [f.message.frame] else []
  }

  /** The radio frames in the packets on their way to the host. */
  function InTransit(q: seq<InFlight>): seq<seq<uint8>> {
    if q == [] then []
    else Carried(q[0]) + InTransit(q[1..])
  }

  /** Everything between the radio and the host's caller, in order. */
  function Pipeline(w: World): seq<seq<uint8>> {
    w.returned + InTransit(w.toHost) + w.board.link.rx
  }

  /** Frames are lost on the way, but never made up, changed, doubled or overtaken. */
  ghost predicate Ordered(w: World) {
    Subseq(Pipeline(w), w.board.pushed)
  }

  /** How the clocks of both sides stand to the last INIT. */
  predicate Timed(w: World) {
    && w.lastTick <= w.now
    && (forall i :: 0 <= i < |w.toHost| && w.toHost[i].message.Bound? ==>
          w.init.Some? && w.toHost[i].at <= w.init.value.at)
    && (w.host.valid ==> w.init.Some? && w.host.timeout < w.init.value.at + 10 * SECOND)
    && (w.init.Some? ==>
      && w.dev.boundtime == Jiffies(w.init.value.tick)
      && w.init.value.tick <= w.ticks && w.init.value.at <= w.now
      && (w.ticks > w.init.value.tick ==> w.lastTick >= w.init.value.at + TICK * (w.ticks - w.init.value.tick - 1))
      && (w.dev.bound || w.now >= w.init.value.at + 10 * SECOND))
  }

  ghost predicate Good(w: World) {
    Links(w) && Ordered(w) && Timed(w)
  }

  // ----- Its preservation: links -----

  /** What a poll does to the board is that the network takes the oldest frame, if one is sent. */
  lemma PollIsNetForward(w: World)
    ensures var (d, rx, out) := Periodic(w.dev, w.board.link.rx, false, Jiffies(w.ticks));
      DevicePoll(w).board
        == if out.Some? && out.value.message.Some? && out.value.message.value.Io? then Bridge.Step(w.board, NetForward)
           else w.board
  {
    hide Datagram, Filled;
    PollSends(w.dev, w.board.link.rx, false, Jiffies(w.ticks));
  }

  lemma PollLinks(w: World)
    requires Links(w)
    ensures Links(DevicePoll(w))
  {
    hide Datagram, Filled, Deliver, Encode, Bridge.Inv, Bridge.Step, Carries, AfterPoll;
    PollIsNetForward(w);
    var (d, rx, out) := Periodic(w.dev, w.board.link.rx, false, Jiffies(w.ticks));
    if out.Some? {
      if d.bound {
        DatagramDelivered(w.dev.buf, w.dev.remoteMac, w.ip, Io(w.board.link.rx[0]), w.mac, w.ip);
        StepKeepsInv(w.board, NetForward);
      } else {
        DatagramDelivered(w.dev.buf, Ones(6), Ones(4), Discover, w.mac, w.ip);
      }
    }
  }

  lemma ReceiveLinks(w: World)
    requires Links(w) && w.toDev != []
    ensures Tractable(Splice(w.dev.buf, 0, w.toDev[0]))
    ensures Links(DeviceReceive(w))
  {
    hide Unicast, Deliver, Encode, Bridge.Inv, Splice;
    InitBinds(w.dev, w.toDev[0], w.mac, w.ip, Jiffies(w.ticks));
  }

  lemma HostLinks(w: World, packet: seq<uint8>)
    requires Links(w) && CanHappen(w, HostReceive(packet))
    ensures Links(HostTake(w, packet))
  {
    hide Deliver, Encode, Bridge.Inv, Carries, Receive;
    HostTakes(w, packet);
  }

  /** What the host does with the oldest packet. */
  lemma HostTakes(w: World, packet: seq<uint8>)
    requires Links(w) && w.toHost != []
    ensures var v, f := HostTake(w, packet), w.toHost[0];
      && v == w.(toHost := w.toHost[1..], host := v.host, toDev := v.toDev, returned := v.returned)
      && (v.toDev == w.toDev || v.toDev == w.toDev + [packet])
      && match f.message
         case Discover =>
           v.toDev == w.toDev + [packet] && v.returned == w.returned && v.host == w.host.(buf := v.host.buf)
         case Io(frame) =>
           && v.host == w.host.(buf := v.host.buf)
           && (if w.host.valid then v.toDev == w.toDev && v.returned == w.returned + [frame]
               else v.toDev == w.toDev + [packet] && v.returned == w.returned)
         case Bound(_, _) =>
           && v.toDev == w.toDev && v.returned == w.returned
           && v.host.valid && v.host.addr == DEVICE && v.host.timeout == w.now + 7 * SECOND
         case Init => false
  {
    hide Deliver, Encode, Bridge.Inv, Carries, Receive, InitBuf;
    assert Deliverable(w, w.toHost[0]);
    match w.toHost[0].message
    case Discover => OnDiscover(w.host, DEVICE, w.now, PAYLOAD_SIZE);
    case Io(frame) => OnIo(w.host, DEVICE, frame, w.now);
    case Bound(ip, mac) => OnBound(w.host, DEVICE, ip, mac, w.now, PAYLOAD_SIZE);
  }

  /** Other traffic changes the device's buffer at most. */
  lemma OtherKeeps(w: World, packet: seq<uint8>, kept: bool)
    requires CanHappen(w, DevOther(packet, kept))
    ensures var d := Device.Poll(w.dev, packet, kept, Jiffies(w.ticks)).0; d == w.dev.(buf := d.buf)
  {
    hide Unicast;
    if kept {
      if packet == [] {
        SpliceNothing(w.dev.buf);
        EmptyPacket(w.dev, Jiffies(w.ticks));
      } else {
        OtherTraffic(w.dev, packet, Jiffies(w.ticks));
      }
    }
  }

  lemma LinksKept(w: World, e: WorldEvent)
    requires Links(w) && CanHappen(w, e)
    ensures Links(WorldStep(w, e))
  {
    hide Deliver, Encode, Bridge.Inv, Bridge.Step, Carries, Receive;
    hide Unicast, Periodic, DevicePoll, DeviceReceive, HostTake;
    match e
    case Tick =>
    case Pass(us) =>
    case Local(event) => StepKeepsInv(w.board, event);
    case DevPoll => PollLinks(w);
    case DevReceive => ReceiveLinks(w);
    case DevOther(packet, kept) => OtherKeeps(w, packet, kept);
    case LoseToHost(i) =>
    case LoseToDev(i) =>
    case HostRenew(packet) =>
    case HostReceive(packet) => HostLinks(w, packet);
  }

  // ----- Its preservation: order -----

  lemma {:induction false} InTransitConcat(a: seq<InFlight>, b: seq<InFlight>)
    ensures InTransit(a + b) == InTransit(a) + InTransit(b)
  {
    if a == [] {
      assert a + b == b;
    } else {
      assert (a + b)[1..] == a[1..] + b;
      InTransitConcat(a[1..], b);
    }
  }

  lemma InTransitOne(f: InFlight)
    ensures InTransit([f]) == Carried(f)
  {
    assert InTransit([f][1..]) == [];
  }

  /** The effect of a board step on what has been pushed and on the receive ring. */
  lemma BoardStep(b: Board, event: Bridge.Event)
    requires Possible(b, event)
    ensures var c := Bridge.Step(b, event);
      || (c.pushed == b.pushed && c.link.rx == b.link.rx)
      || (exists f: Frame :: c.pushed == b.pushed + [f] && c.link.rx == b.link.rx + [f])
      || (b.link.rx != [] && c.pushed == b.pushed && c.link.rx == b.link.rx[1..])
      || (c.pushed == b.pushed && c.link.rx == [])
  {
    if event.Interrupt? && event.status.rxDr && b.link.Takes(event.received) {
      var f: Frame := event.received.data;
      assert Bridge.Step(b, event).pushed == b.pushed + [f];
    }
  }

  lemma LocalOrdered(w: World, event: Bridge.Event)
    requires Ordered(w) && CanHappen(w, Local(event))
    ensures Ordered(w.(board := Bridge.Step(w.board, event)))
  {
    hide Subseq, Bridge.Step, InTransit, Possible;
    var v := w.(board := Bridge.Step(w.board, event));
    var b, c := w.board, v.board;
    var before := w.returned + InTransit(w.toHost);
    BoardStep(b, event);
    if f: Frame :| c.pushed == b.pushed + [f] && c.link.rx == b.link.rx + [f] {
      SubseqSnoc<seq<uint8>>(Pipeline(w), b.pushed, f);
      assert Pipeline(v) == Pipeline(w) + [f];
    } else if b.link.rx != [] && c.pushed == b.pushed && c.link.rx == b.link.rx[1..] {
      SubseqWithout<seq<uint8>>(Pipeline(w), b.pushed, |before|);
      assert Pipeline(v) == Without(Pipeline(w), |before|);
    } else if c.link.rx == [] && c.pushed == b.pushed {
      assert Pipeline(w) == before + b.link.rx + [];
      SubseqWithoutBlock<seq<uint8>>(before, b.link.rx, [], b.pushed);
      assert Pipeline(v) == before + [];
    }
  }

  /** The binding is alive at this poll. */
  predicate Alive(w: World) {
    w.dev.bound && Since(Jiffies(w.ticks), w.dev.boundtime) <= LEASE
  }

  /** A poll sends an IO with the frame it takes off the receive ring, exactly if the binding is alive and one
      waits; a DISCOVER, exactly without a live binding and a second after the last packet; or nothing. */
  lemma PollEffect(w: World)
    ensures var v, waits := DevicePoll(w), w.board.link.rx != [];
      && v == w.(dev := v.dev, board := v.board, toHost := v.toHost)
      && v.board.pushed == w.board.pushed
      && v.dev.bound == Alive(w) && v.dev.boundtime == w.dev.boundtime
      && v.dev.lastshot == (if v.toHost == w.toHost then w.dev.lastshot else Jiffies(w.ticks))
      && (if Alive(w) && waits then
            && v.toHost == w.toHost + [v.toHost[|w.toHost|]] && v.toHost[|w.toHost|].message == Io(w.board.link.rx[0])
            && w.board.link.rx == [w.board.link.rx[0]] + v.board.link.rx
          else if !Alive(w) && Since(Jiffies(w.ticks), w.dev.lastshot) >= HZ then
            && v.toHost == w.toHost + [v.toHost[|w.toHost|]] && v.toHost[|w.toHost|].message.Discover?
            && v.board == w.board
          else v.toHost == w.toHost && v.board == w.board)
  {
    hide Datagram, Filled;
    PollSends(w.dev, w.board.link.rx, false, Jiffies(w.ticks));
  }

  lemma PollOrdered(w: World)
    requires Ordered(w)
    ensures Ordered(DevicePoll(w))
  {
    hide Subseq, InTransit, DevicePoll;
    var v := DevicePoll(w);
    PollEffect(w);
    if v.toHost != w.toHost {
      var f := v.toHost[|w.toHost|];
      InTransitConcat(w.toHost, [f]);
      InTransitOne(f);
    }
    assert Pipeline(v) == Pipeline(w);
  }

  lemma ReceiveOrdered(w: World)
    requires Links(w) && Ordered(w) && w.toDev != []
    ensures Tractable(Splice(w.dev.buf, 0, w.toDev[0]))
    ensures Ordered(DeviceReceive(w))
  {
    hide Unicast, Deliver, Encode, Subseq, Splice;
    InitBinds(w.dev, w.toDev[0], w.mac, w.ip, Jiffies(w.ticks));
    var v := DeviceReceive(w);
    var out := Unicast(w.dev, w.toDev[0], Jiffies(w.ticks)).1;
    InTransitConcat(w.toHost, Emit(w, out));
    InTransitOne(Emit(w, out)[0]);
    assert Pipeline(v) == Pipeline(w);
  }

  lemma InTransitParts(a: seq<InFlight>, f: InFlight, b: seq<InFlight>)
    ensures InTransit(a + ([f] + b)) == InTransit(a) + (Carried(f) + InTransit(b))
  {
    hide InTransit, Carried;
    InTransitConcat(a, [f] + b);
    InTransitConcat([f], b);
    InTransitOne(f);
  }

  lemma InTransitAround(q: seq<InFlight>, i: nat)
    requires i < |q|
    ensures InTransit(q) == InTransit(q[..i]) + (Carried(q[i]) + InTransit(q[i + 1..]))
    ensures InTransit(Without(q, i)) == InTransit(q[..i]) + InTransit(q[i + 1..])
  {
    hide InTransit, Carried;
    var a, b := q[..i], q[i + 1..];
    InTransitParts(a, q[i], b);
    InTransitConcat(a, b);
    Around(q, i);
  }

  lemma Around<T>(q: seq<T>, i: nat)
    requires i < |q|
    ensures q[..i] + ([q[i]] + q[i + 1..]) == q
  {}

  /** Dropping the packet at `i` leaves its frame, if it carries one, out of the pipeline. */
  lemma LossOrdered(w: World, i: nat)
    requires Ordered(w) && i < |w.toHost|
    ensures Ordered(w.(toHost := Without(w.toHost, i)))
  {
    hide Subseq, InTransit;
    var v := w.(toHost := Without(w.toHost, i));
    InTransitAround(w.toHost, i);
    var head, tail := w.returned + InTransit(w.toHost[..i]), InTransit(w.toHost[i + 1..]) + w.board.link.rx;
    if w.toHost[i].message.Io? {
      assert Pipeline(w) == head + [w.toHost[i].message.frame] + tail;
      SubseqWithout<seq<uint8>>(Pipeline(w), w.board.pushed, |head|);
      assert Pipeline(v) == head + tail == Without(Pipeline(w), |head|);
    } else {
      assert Pipeline(v) == Pipeline(w);
    }
  }

  lemma TakeOrdered(w: World, packet: seq<uint8>)
    requires Links(w) && Ordered(w) && w.toHost != []
    ensures Ordered(HostTake(w, packet))
  {
    hide Subseq, HostTake, Links;
    var v := HostTake(w, packet);
    HostTakes(w, packet);
    var f := w.toHost[0];
    if f.message.Io? && !w.host.valid {
      LossOrdered(w, 0);
      assert Without(w.toHost, 0) == w.toHost[1..];
      assert Pipeline(v) == Pipeline(w.(toHost := w.toHost[1..]));
    } else {
      assert Pipeline(v) == Pipeline(w);
    }
  }

  lemma OrderedKept(w: World, e: WorldEvent)
    requires Links(w) && Ordered(w) && CanHappen(w, e)
    ensures Ordered(WorldStep(w, e))
  {
    hide Subseq, Deliver, Encode, Bridge.Inv, Bridge.Step, Carries, Receive;
    hide Unicast, Periodic, DevicePoll, DeviceReceive, HostTake;
    match e
    case Tick =>
    case Pass(us) =>
    case Local(event) => LocalOrdered(w, event);
    case DevPoll => PollOrdered(w);
    case DevReceive => ReceiveOrdered(w);
    case DevOther(packet, kept) =>
    case LoseToHost(i) => LossOrdered(w, i);
    case LoseToDev(i) =>
    case HostRenew(packet) =>
    case HostReceive(packet) => TakeOrdered(w, packet);
  }

  // ----- Its preservation: time -----

  lemma PollTimed(w: World)
    requires Links(w) && Timed(w)
    ensures Timed(DevicePoll(w))
  {
    hide Datagram, Filled, Bridge.Step, Links;
    if w.init.Some? {
      SinceExact(w.ticks, w.init.value.tick);
      if w.ticks - w.init.value.tick > LEASE {
        LateMeansTenSeconds(w);
      }
    }
  }

  /** A poll that finds the lease over is at least ten seconds after the INIT. */
  lemma LateMeansTenSeconds(w: World)
    requires Timed(w) && w.init.Some? && w.ticks - w.init.value.tick > LEASE
    ensures w.now >= w.init.value.at + 10 * SECOND
  {
    assert TICK * (w.ticks - w.init.value.tick - 1) >= TICK * LEASE;
  }

  lemma ReceiveTimed(w: World)
    requires Links(w) && Timed(w) && w.toDev != []
    ensures Tractable(Splice(w.dev.buf, 0, w.toDev[0]))
    ensures Timed(DeviceReceive(w))
  {
    hide Unicast, Deliver, Encode, Splice;
    InitBinds(w.dev, w.toDev[0], w.mac, w.ip, Jiffies(w.ticks));
  }

  lemma TakeTimed(w: World, packet: seq<uint8>)
    requires Links(w) && Timed(w) && CanHappen(w, HostReceive(packet))
    ensures Timed(HostTake(w, packet))
  {
    hide HostTake, Links, Carries, Encode;
    HostTakes(w, packet);
  }

  lemma TimedKept(w: World, e: WorldEvent)
    requires Links(w) && Timed(w) && CanHappen(w, e)
    ensures Timed(WorldStep(w, e))
  {
    hide Deliver, Encode, Bridge.Inv, Bridge.Step, Carries, Receive;
    hide Unicast, Periodic, DevicePoll, DeviceReceive, HostTake;
    match e
    case Tick =>
      if w.init.Some? {
        assert TICK * (w.ticks + 1 - w.init.value.tick - 1) == TICK * (w.ticks - w.init.value.tick - 1) + TICK;
      }
    case Pass(us) =>
    case Local(event) =>
    case DevPoll => PollTimed(w);
    case DevReceive => ReceiveTimed(w);
    case DevOther(packet, kept) => OtherKeeps(w, packet, kept);
    case LoseToHost(i) =>
    case LoseToDev(i) =>
    case HostRenew(packet) =>
    case HostReceive(packet) => TakeTimed(w, packet);
  }
}

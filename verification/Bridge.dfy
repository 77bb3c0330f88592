/**
 The producer and consumer of the two rings in firmware/main.c, and what holds in every
 interleaving of USB receive, radio interrupts and main-loop steps. An interrupt handler or a
 cli..sei block is one step; so is `nrf_rx_enable` in the main loop.
 */
module Bridge {
  import opened Machine
  import opened Fifo
  import opened Radio
  import opened Subsequence

  /** `usb_in` and the forwarding step of the main loop, with their transfer buffers. */
  class MainLoop {
    const driver: Driver
    const inbuf: array<uint8>
    const outbuf: array<uint8>

    ghost predicate Valid()
      reads this, driver, driver.txRing, driver.rxRing
    {
      && driver.Valid() && inbuf.Length == outbuf.Length == PAYLOAD_SIZE && inbuf != outbuf
    }

    constructor (driver: Driver)
      requires driver.Valid()
      ensures Valid() && this.driver == driver && fresh(inbuf) && fresh(outbuf)
    {
      this.driver := driver;
      inbuf := new uint8[PAYLOAD_SIZE];
      outbuf := new uint8[PAYLOAD_SIZE];
    }

    /** The receive callback: `inbuf` holds the packet. */
    method UsbIn()
      requires Valid()
      modifies driver, driver.txRing, driver.txRing.entry
      ensures Valid() && driver.State() == old(driver.State()).Submit(inbuf[..])
    {
      if !driver.txRing.Full() {
        driver.txRing.Fill(driver.txRing.GetHead().value, inbuf[..]);
        driver.txRing.Push();
      }
      driver.WakeQueue();
    }

    /** Hands the oldest received frame to an idle IN endpoint. */
    method ForwardToUsb(idle: bool) returns (sent: bool)
      requires Valid()
      modifies driver.rxRing, outbuf
      ensures Valid()
      ensures sent <==> idle && old(driver.State()).rx != []
      ensures sent ==> outbuf[..] == old(driver.State()).rx[0]
      ensures var d := old(driver.State());
        driver.State() == if sent then d.(rx := d.rx[1..]) else d
    {
      sent := false;
      if driver.rxRing.Count() != 0 && idle {
        var frame := driver.rxRing.Fetch(driver.rxRing.GetTail().value);
        MemCpy(outbuf, 0, frame);
        assert outbuf[..] == frame;
        driver.rxRing.Pop();
        sent := true;
      }
    }
  }

  // ----- Runs -----

  /** Who took a frame off the receive ring; clearing the ring takes all that is left. */
  datatype Consumer = Usb | Net | Cleared

  datatype Taken = Taken(who: Consumer, frame: Frame)

  /** The link with the history of both directions: frames accepted into the transmit ring, payloads
      the chip has reported as sent, frames pushed on and taken off the receive ring. */
  datatype Board = Board(link: Link, accepted: seq<Frame>, done: nat, pushed: seq<Frame>, taken: seq<Taken>)

  datatype Event =
    | UsbFrame(frame: Frame)
    | Interrupt(status: Status, received: Received)
    | UsbForward(idle: bool)
    | NetForward
    | EnableRx
    | DisableRx

  /** The chip reports TX_DS once per payload written to it. */
  predicate Possible(b: Board, e: Event) {
    e.Interrupt? && e.status.txDs ==> b.done < |b.link.written|
  }

  function All(who: Consumer, frames: seq<Frame>): (r: seq<Taken>)
    ensures |r| == |frames| && forall i :: 0 <= i < |r| ==> r[i] == Taken(who, frames[i])
  {
    seq(|frames|, i requires 0 <= i < |frames| => Taken(who, frames[i]))
  }

  function TakeOne(b: Board, who: Consumer): Board {
    if b.link.rx == [] then b
    else b.(link := b.link.(rx := b.link.rx[1..]), taken := b.taken + [Taken(who, b.link.rx[0])])
  }

  function Step(b: Board, e: Event): Board {
    match e
    case UsbFrame(f) =>
      b.(link := b.link.Submit(f), accepted := if |b.link.tx| < FIFO_SIZE then b.accepted + [f] else b.accepted)
    case Interrupt(status, r) =>
      b.(link := b.link.Irq(status, r),
         done := if status.txDs then b.done + 1 else b.done,
         pushed := if status.rxDr && b.link.Takes(r) then b.pushed + [r.data] else b.pushed)
    case UsbForward(idle) => if idle then TakeOne(b, Usb) else b
    case NetForward => TakeOne(b, Net)
    case EnableRx => b.(link := b.link.RxEnable())
    case DisableRx =>
      b.(link := b.link.RxDisable(), taken := if b.link.rxOn then b.taken + All(Cleared, b.link.rx) else b.taken)
  }

  ghost predicate IsRun(b: Board, events: seq<Event>)
    decreases |events|
  {
    events == [] || (Possible(b, events[0]) && IsRun(Step(b, events[0]), events[1..]))
  }

  function Run(b: Board, events: seq<Event>): Board
    decreases |events|
  {
    if events == [] then b else Run(Step(b, events[0]), events[1..])
  }

  /** After initialisation and the first standby. */
  const INITIAL := Board(Link([], [], false, false, false, true, false, []), [], 0, [], [])

  function Frames(log: seq<Taken>): (r: seq<Frame>)
    ensures |r| == |log| && forall i :: 0 <= i < |r| ==> r[i] == log[i].frame
  {
    seq(|log|, i requires 0 <= i < |log| => log[i].frame)
  }

  /** In order: what was accepted was written to the chip, and then what is still queued. */
  predicate TransmitConserved(b: Board) {
    b.accepted == b.link.written + b.link.tx
  }

  /** The flag stands for exactly one payload outstanding in the chip, and no frame is stranded. */
  predicate TransmitterRuns(b: Board) {
    && b.done <= |b.link.written|
    && |b.link.written| - b.done == (if b.link.txOn then 1 else 0)
    && (b.link.tx != [] ==> b.link.txOn)
  }

  /** In order: what was pushed was taken, each frame by one consumer, and then what is still there. */
  predicate ReceiveConserved(b: Board) {
    b.pushed == Frames(b.taken) + b.link.rx
  }

  /** Pins and mode follow the state word. */
  predicate ModeFollows(l: Link) {
    && (l.txOn ==> l.ce && l.pwrUp && !l.primRx)
    && (!l.txOn && l.rxOn ==> l.ce && l.pwrUp && l.primRx)
    && (!l.txOn && !l.rxOn ==> !l.ce && !l.primRx)
  }

  predicate Inv(b: Board) {
    && TransmitConserved(b) && TransmitterRuns(b) && ReceiveConserved(b) && ModeFollows(b.link)
    && |b.link.tx| <= FIFO_SIZE && |b.link.rx| <= FIFO_SIZE
  }

  /** An interrupt with both causes is a received frame followed by a finished transmission. */
  lemma InterruptKeeps(b: Board, status: Status, r: Received)
    requires Inv(b) && Possible(b, Interrupt(status, r))
    ensures Inv(Step(b, Interrupt(status, r)))
  {
    var m := b.(link := if status.rxDr then b.link.Receive(r) else b.link,
                pushed := if status.rxDr && b.link.Takes(r) then b.pushed + [r.data] else b.pushed);
    assert Inv(m);
    if status.txDs {
      SentKeeps(m);
    }
  }

  lemma SentKeeps(b: Board)
    requires Inv(b) && b.done < |b.link.written|
    ensures Inv(b.(link := b.link.Sent(), done := b.done + 1))
  {
    hide Frames;
    if b.link.tx != [] {
      assert b.link.tx == [b.link.tx[0]] + b.link.tx[1..];
    }
  }

  lemma StepKeepsInv(b: Board, e: Event)
    requires Inv(b) && Possible(b, e)
    ensures Inv(Step(b, e))
  {
    hide Frames;
    var c := Step(b, e);
    match e
    case UsbFrame(f) =>
    case Interrupt(status, r) => InterruptKeeps(b, status, r);
    case UsbForward(idle) => TakeOneKeeps(b, Usb);
    case NetForward => TakeOneKeeps(b, Net);
    case EnableRx =>
    case DisableRx =>
      if b.link.rxOn {
        assert Frames(c.taken) == Frames(b.taken) + b.link.rx;
      }
  }

  lemma TakeOneKeeps(b: Board, who: Consumer)
    requires ReceiveConserved(b)
    ensures ReceiveConserved(TakeOne(b, who))
  {
    if b.link.rx != [] {
      var c := TakeOne(b, who);
      assert Frames(c.taken) == Frames(b.taken) + [b.link.rx[0]];
    }
  }

  /** Every reachable state: conservation in both directions, the transmitter flag and the chip's mode. */
  lemma {:induction false} EveryRun(b: Board, events: seq<Event>)
    requires Inv(b) && IsRun(b, events)
    ensures Inv(Run(b, events))
    decreases |events|
  {
    if events == [] {
    } else {
      StepKeepsInv(b, events[0]);
      EveryRun(Step(b, events[0]), events[1..]);
    }
  }

  lemma EveryRunFromReset(events: seq<Event>)
    requires IsRun(INITIAL, events)
    ensures Inv(Run(INITIAL, events))
  {
    EveryRun(INITIAL, events);
  }

  /** A change of mode does not depend on the mode before it, and changes nothing but the mode and what is sent. */
  lemma ModeIsComplete(l: Link, ce: bool, pwrUp: bool, primRx: bool, f: Frame)
    ensures var m := l.(ce := ce, pwrUp := pwrUp, primRx := primRx);
      && m.Standby() == l.Standby() && m.RxMode() == l.RxMode() && m.PowerDown() == l.PowerDown()
      && m.Transmit(f) == l.Transmit(f)
    ensures var m := l.Transmit(f);
      m == l.(ce := m.ce, pwrUp := m.pwrUp, primRx := m.primRx, written := l.written + [f])
    ensures l.Standby().RxMode().PowerDown() == l.(ce := false, pwrUp := false, primRx := false)
  {}

  /** What `nrf_init` leaves becomes, with the first standby, the state in which every run begins. */
  lemma FirstStandby(l: Link)
    requires l.tx == [] && l.rx == [] && !l.txOn && !l.rxOn && l.written == []
    ensures Board(l.Standby(), [], 0, [], []) == INITIAL
  {}

  /** The transmit-done interrupts alone, `n` of them. */
  function SentEvents(n: nat): seq<Event> {
    seq(n, _ => Interrupt(Status(false, true), Received(6, 0, Zeros(16))))
  }

  /** As many transmit-done interrupts as there are queued frames empty the ring: every accepted
      frame has then been written to the chip. */
  lemma {:induction false} QueueDrains(b: Board)
    requires Inv(b)
    ensures IsRun(b, SentEvents(|b.link.tx|))
    ensures var c := Run(b, SentEvents(|b.link.tx|)); c.link.tx == [] && c.link.written == b.accepted
    decreases |b.link.tx|
  {
    if b.link.tx == [] {
    } else {
      var events := SentEvents(|b.link.tx|);
      var c := Step(b, events[0]);
      StepKeepsInv(b, events[0]);
      assert events[1..] == SentEvents(|c.link.tx|);
      QueueDrains(c);
    }
  }

  // ----- From end to end of the board -----

  /** The frames that USB hands over in a run. */
  function Offered(events: seq<Event>): seq<Frame> {
    if events == [] then []
    else (if events[0].UsbFrame? then [events[0].frame] else []) + Offered(events[1..])
  }

  /** No frame comes while the transmit ring is full. */
  predicate NeverFull(b: Board, events: seq<Event>)
    decreases |events|
  {
    events == [] || ((events[0].UsbFrame? ==> |b.link.tx| < FIFO_SIZE) && NeverFull(Step(b, events[0]), events[1..]))
  }

  lemma AcceptedByStep(b: Board, e: Event)
    ensures Step(b, e).accepted == b.accepted + if e.UsbFrame? && |b.link.tx| < FIFO_SIZE then [e.frame] else []
  {}

  /** `so` are the frames handed over before. */
  lemma {:induction false} AcceptedFrom(b: Board, events: seq<Event>, so: seq<Frame>)
    requires Subseq(b.accepted, so)
    ensures Subseq(Run(b, events).accepted, so + Offered(events))
    ensures NeverFull(b, events) && b.accepted == so ==> Run(b, events).accepted == so + Offered(events)
    decreases |events|
  {
    hide Step, Subseq;
    if events == [] {
      assert so + Offered(events) == so;
    } else {
      var e := events[0];
      AcceptedByStep(b, e);
      if e.UsbFrame? {
        SubseqSnoc(b.accepted, so, e.frame);
        SubseqMore(b.accepted, so, e.frame);
        Assoc(so, [e.frame], Offered(events[1..]));
        assert b.accepted + [] == b.accepted;
        AcceptedFrom(Step(b, e), events[1..], so + [e.frame]);
      } else {
        assert [] + Offered(events[1..]) == Offered(events[1..]);
        assert b.accepted + [] == b.accepted;
        AcceptedFrom(Step(b, e), events[1..], so);
      }
    }
  }

  /** From the USB host to the radio: in every run the payloads written to the chip are, in order, frames
      that the host has sent; and if none comes while the ring is full, they are with the queued ones all
      of them. */
  lemma HostToRadio(events: seq<Event>)
    requires IsRun(INITIAL, events)
    ensures var c := Run(INITIAL, events);
      && Subseq<Frame>(c.link.written, Offered(events))
      && (NeverFull(INITIAL, events) ==> c.link.written + c.link.tx == Offered(events))
  {
    hide Subseq, Run, NeverFull;
    assert Inv(Run(INITIAL, events)) by {
      EveryRunFromReset(events);
    }
    assert Subseq<Frame>([], []) by {
      SubseqSelf<Frame>([]);
    }
    AcceptedFrom(INITIAL, events, []);
    var c := Run(INITIAL, events);
    assert [] + Offered(events) == Offered(events);
    assert c.accepted == c.link.written + c.link.tx + [];
    SubseqWithoutBlock<Frame>(c.link.written, c.link.tx, [], Offered(events));
    assert c.link.written + [] == c.link.written;
  }

  /** The frames that one consumer has taken. */
  function By(who: Consumer, log: seq<Taken>): seq<Frame> {
    if log == [] then []
    else By(who, log[..|log| - 1]) + if log[|log| - 1].who == who then [log[|log| - 1].frame] else []
  }

  lemma {:induction false} BySubseq(who: Consumer, log: seq<Taken>)
    ensures Subseq(By(who, log), Frames(log))
    decreases |log|
  {
    hide Subseq;
    if log == [] {
      SubseqSelf<Frame>([]);
    } else {
      var n := |log| - 1;
      BySubseq(who, log[..n]);
      assert Frames(log) == Frames(log[..n]) + [log[n].frame];
      SubseqSnoc(By(who, log[..n]), Frames(log[..n]), log[n].frame);
      SubseqMore(By(who, log[..n]), Frames(log[..n]), log[n].frame);
      assert By(who, log[..n]) + [] == By(who, log[..n]);
    }
  }

  /** Each frame is taken by exactly one consumer. */
  lemma {:induction false} TakenByOne(log: seq<Taken>)
    ensures multiset(Frames(log)) == multiset(By(Usb, log)) + multiset(By(Net, log)) + multiset(By(Cleared, log))
    decreases |log|
  {
    hide By;
    if log == [] {
      NoneTaken();
    } else {
      var n := |log| - 1;
      TakenByOne(log[..n]);
      LastTaken(log, Usb);
      LastTaken(log, Net);
      LastTaken(log, Cleared);
      assert Frames(log) == Frames(log[..n]) + [log[n].frame];
    }
  }

  lemma NoneTaken()
    ensures forall who {:trigger By(who, [])} :: By(who, []) == []
  {}

  lemma LastTaken(log: seq<Taken>, who: Consumer)
    requires log != []
    ensures var n := |log| - 1;
      multiset(By(who, log))
        == multiset(By(who, log[..n])) + if log[n].who == who then multiset{log[n].frame} else multiset{}
  {}

  /** From the radio to the consumers: in every run every frame received has been taken by exactly one of them
      or is still there, ... */
  lemma ReceivedOnce(events: seq<Event>)
    requires IsRun(INITIAL, events)
    ensures var c := Run(INITIAL, events);
      multiset(c.pushed)
        == multiset(By(Usb, c.taken)) + multiset(By(Net, c.taken)) + multiset(By(Cleared, c.taken))
           + multiset(c.link.rx)
  {
    hide Run, By;
    EveryRunFromReset(events);
    TakenByOne(Run(INITIAL, events).taken);
  }

  /** ... and the frames that one has taken are, in order, frames the radio has received. */
  lemma RadioToConsumer(events: seq<Event>, who: Consumer)
    requires IsRun(INITIAL, events)
    ensures var c := Run(INITIAL, events); Subseq<Frame>(By(who, c.taken), c.pushed)
  {
    hide Subseq, Run, By;
    EveryRunFromReset(events);
    var c := Run(INITIAL, events);
    BySubseq(who, c.taken);
    SubseqAppend<Frame>(By(who, c.taken), Frames(c.taken), c.link.rx);
  }

  // ----- The receiver -----

  /** A received frame of sixteen bytes on one of the pipes 0 to 5 is queued exactly if there is room, and
      nothing else is. */
  lemma ReceivedExactly(b: Board, txDs: bool, pipe: nat, width: nat, data: Frame)
    ensures var c := Step(b, Interrupt(Status(true, txDs), Received(pipe, width, data)));
      var taken := pipe <= 5 && width == 16 && |b.link.rx| < 4;
      && c.pushed == (if taken then b.pushed + [data] else b.pushed)
      && c.link.rx == (if taken then b.link.rx + [data] else b.link.rx)
    ensures var c := Step(b, Interrupt(Status(false, txDs), Received(pipe, width, data)));
      c.pushed == b.pushed && c.link.rx == b.link.rx
  {}

  /** Each consumer takes the oldest frame when its turn comes, USB only with an idle endpoint. */
  lemma TakenExactly(b: Board, idle: bool)
    ensures var c := Step(b, UsbForward(idle));
      if idle && b.link.rx != [] then
        b.link.rx == [c.taken[|b.taken|].frame] + c.link.rx && c.taken == b.taken + [Taken(Usb, b.link.rx[0])]
      else c == b
    ensures var c := Step(b, NetForward);
      if b.link.rx != [] then
        b.link.rx == [c.taken[|b.taken|].frame] + c.link.rx && c.taken == b.taken + [Taken(Net, b.link.rx[0])]
      else c == b
  {}

  predicate NeverDisables(events: seq<Event>) {
    forall i :: 0 <= i < |events| ==> !events[i].DisableRx?
  }

  predicate NeverEnables(events: seq<Event>) {
    forall i :: 0 <= i < |events| ==> !events[i].EnableRx?
  }

  /** Only these two steps touch the bit that says whether to receive. */
  lemma {:induction false} ReceiveBitLasts(b: Board, events: seq<Event>)
    ensures b.link.rxOn && NeverDisables(events) ==> Run(b, events).link.rxOn
    ensures !b.link.rxOn && NeverEnables(events) ==> !Run(b, events).link.rxOn
    decreases |events|
  {
    hide Step;
    if events == [] {
    } else {
      ReceiveBitStep(b, events[0]);
      ReceiveBitLasts(Step(b, events[0]), events[1..]);
    }
  }

  lemma ReceiveBitStep(b: Board, e: Event)
    ensures Step(b, e).link.rxOn == if e.EnableRx? then true else if e.DisableRx? then false else b.link.rxOn
  {}

  /** Once the receiver has been switched on it stays on in every run until it is switched off: whenever no
      payload is outstanding the chip is powered up and receives. */
  lemma ReceivesOnceEnabled(b: Board, events: seq<Event>)
    requires Inv(b) && NeverDisables(events) && IsRun(Step(b, EnableRx), events)
    ensures var c := Run(Step(b, EnableRx), events);
      && c.link.rxOn
      && (c.done == |c.link.written| ==> c.link.ce && c.link.pwrUp && c.link.primRx)
  {
    hide Step, Run, IsRun;
    ReceiveBitStep(b, EnableRx);
    StepKeepsInv(b, EnableRx);
    EveryRun(Step(b, EnableRx), events);
    ReceiveBitLasts(Step(b, EnableRx), events);
  }

  /** And off until it is switched on again: whenever no payload is outstanding the chip is idle. */
  lemma SilentOnceDisabled(b: Board, events: seq<Event>)
    requires Inv(b) && NeverEnables(events) && IsRun(Step(b, DisableRx), events)
    ensures var c := Run(Step(b, DisableRx), events);
      && !c.link.rxOn
      && (c.done == |c.link.written| ==> !c.link.ce)
  {
    hide Step, Run, IsRun;
    ReceiveBitStep(b, DisableRx);
    StepKeepsInv(b, DisableRx);
    EveryRun(Step(b, DisableRx), events);
    ReceiveBitLasts(Step(b, DisableRx), events);
  }

  lemma {:induction false} RunConcat(b: Board, e1: seq<Event>, e2: seq<Event>)
    requires IsRun(b, e1) && IsRun(Run(b, e1), e2)
    ensures IsRun(b, e1 + e2) && Run(b, e1 + e2) == Run(Run(b, e1), e2)
    decreases |e1|
  {
    hide Step, Possible;
    if e1 == [] {
      assert e1 + e2 == e2;
    } else {
      assert (e1 + e2)[0] == e1[0] && (e1 + e2)[1..] == e1[1..] + e2;
      RunConcat(Step(b, e1[0]), e1[1..], e2);
    }
  }

  /** What the transmitter leaves behind: as many transmit-done interrupts as there are queued frames and
      one more for the payload outstanding send everything, and the chip is then receiving if that is
      switched on, and powered down if not. */
  lemma AfterTheQueue(b: Board)
    requires Inv(b) && b.link.txOn
    ensures IsRun(b, SentEvents(|b.link.tx|) + SentEvents(1))
    ensures var c := Run(b, SentEvents(|b.link.tx|) + SentEvents(1));
      && c.link.tx == [] && c.link.written == b.accepted && c.done == |c.link.written| && !c.link.txOn
      && c.link.rxOn == b.link.rxOn
      && (if b.link.rxOn then c.link.ce && c.link.pwrUp && c.link.primRx else !c.link.ce && !c.link.pwrUp)
  {
    hide Run, IsRun;
    QueueDrains(b);
    var n := |b.link.tx|;
    var m := Run(b, SentEvents(n));
    EveryRun(b, SentEvents(n));
    StillOn(b);
    ReceiveBitLasts(b, SentEvents(n));
    LastSent(m);
    RunConcat(b, SentEvents(n), SentEvents(1));
  }

  /** The queued frames keep the transmitter on. */
  lemma {:induction false} StillOn(b: Board)
    requires Inv(b) && b.link.txOn
    ensures Run(b, SentEvents(|b.link.tx|)).link.txOn
    ensures Run(b, SentEvents(|b.link.tx|)).accepted == b.accepted
    decreases |b.link.tx|
  {
    if b.link.tx == [] {
    } else {
      var events := SentEvents(|b.link.tx|);
      var c := Step(b, events[0]);
      StepKeepsInv(b, events[0]);
      assert events[1..] == SentEvents(|c.link.tx|);
      StillOn(c);
    }
  }

  lemma LastSent(b: Board)
    requires Inv(b) && b.link.txOn && b.link.tx == []
    ensures IsRun(b, SentEvents(1))
    ensures var c := Run(b, SentEvents(1));
      && c.link.tx == [] && c.link.written == b.link.written && c.done == |c.link.written| && !c.link.txOn
      && c.link.rxOn == b.link.rxOn
      && (if b.link.rxOn then c.link.ce && c.link.pwrUp && c.link.primRx else !c.link.ce && !c.link.pwrUp)
  {
    var e := SentEvents(1);
    assert e[1..] == [];
    assert Run(b, e) == Run(Step(b, e[0]), e[1..]) == Step(b, e[0]);
    assert IsRun(Step(b, e[0]), e[1..]);
  }

  /** Switching the receiver on while the transmitter runs changes nothing at once; when the queue and the
      outstanding payload are through, the chip receives. Switching it off, it is powered down then. */
  lemma SwitchedDuringTransmission(b: Board)
    requires Inv(b) && b.link.txOn
    ensures var e := Step(b, EnableRx);
      && e == b.(link := b.link.(rxOn := true))
      && IsRun(e, SentEvents(|e.link.tx|) + SentEvents(1))
      && var c := Run(e, SentEvents(|e.link.tx|) + SentEvents(1));
      c.link.written == b.accepted && c.link.ce && c.link.pwrUp && c.link.primRx
    ensures var e := Step(b, DisableRx);
      && e.link == b.link.(rxOn := false, rx := e.link.rx)
      && IsRun(e, SentEvents(|e.link.tx|) + SentEvents(1))
      && var c := Run(e, SentEvents(|e.link.tx|) + SentEvents(1));
      c.link.written == b.accepted && !c.link.ce && !c.link.pwrUp
  {
    hide Run, IsRun;
    StepKeepsInv(b, EnableRx);
    StepKeepsInv(b, DisableRx);
    AfterTheQueue(Step(b, EnableRx));
    AfterTheQueue(Step(b, DisableRx));
  }

  /** Without a transmission the chip is switched at once, and switching off forgets what was received. */
  lemma SwitchedAtRest(b: Board)
    requires Inv(b) && !b.link.txOn
    ensures var c := Step(b, EnableRx).link; c.ce && c.pwrUp && c.primRx && c.rx == b.link.rx
    ensures b.link.rxOn ==> var c := Step(b, DisableRx).link; !c.ce && !c.pwrUp && c.rx == []
  {}

  /** A frame from USB wakes an idle transmitter: it is on the air at once. */
  lemma FirstFrameIsSent(b: Board, f: Frame)
    requires Inv(b) && !b.link.txOn
    ensures var c := Step(b, UsbFrame(f));
      && c.link.written == b.link.written + [f] && c.link.tx == [] && c.link.txOn
      && c.link.ce && c.link.pwrUp && !c.link.primRx
  {}
}

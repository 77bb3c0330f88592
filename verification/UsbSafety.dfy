/** What holds in every run of the USB device, and what a control read delivers. */
module UsbSafety {
  import opened Machine
  import opened Endpoint
  import opened Usb

  datatype Event =
    | Interrupt(n: nat, flags: Flags, env: Env)
    | Reset
    | OfferFrame(frame: seq<uint8>)
    | AskForFrame

  /** The USB controller raises RXSTPI on the control endpoint only. */
  predicate Possible(e: Event) {
    e.Interrupt? ==> e.n < NUM_EPS && (e.n != 0 ==> e.flags.setup.None?)
  }

  function Step(t: Tables, d: Device, e: Event): Device
    requires WellFormed(t) && (e.Interrupt? ==> e.n < NUM_EPS)
  {
    if d.halt != Running then d
    else
      match e
      case Interrupt(n, f, env) => HandleEp(t, d, n, f, env)
      case Reset => BusReset(d)
      case OfferFrame(frame) => Offer(d, frame)
      case AskForFrame => Ask(d)
  }

  predicate IsRun(events: seq<Event>) {
    forall i :: 0 <= i < |events| ==> Possible(events[i])
  }

  function Run(t: Tables, d: Device, events: seq<Event>): Device
    requires WellFormed(t) && IsRun(events)
    decreases |events|
  {
    if events == [] then d
    else
      assert Possible(events[0]);
      Run(t, Step(t, d, events[0]), events[1..])
  }

  // ----- Requests that stay inside the buffer -----

  /** The bytes of a vendor request stay inside the eight bytes of the handler's buffer. A write request
      fails to if its eight-bit size has wrapped around. */
  predicate InBuffer(t: Tables, s: Setup) {
    && (IsSpiWrite(s) ==> s.wLength % 0x100 < 0x100 - HeaderSize(s))
    && (IsSpiRead(s) ==> s.wLength <= EP0_SIZE)
    && (IsBuild(s) ==> |t.date| <= 1)
  }

  lemma InBufferExactly(t: Tables, s: Setup)
    ensures InBuffer(t, s) <==> Reach(t, s) <= EP0_SIZE
  {
    if IsSpiWrite(s) {
      WrappedSize(s.wLength, HeaderSize(s));
    }
  }

  lemma WrappedSize(length: uint16, header: nat)
    requires 1 <= header <= 2
    ensures (length + header) % 0x100 ==
      if length % 0x100 + header < 0x100 then length % 0x100 + header else length % 0x100 + header - 0x100
  {}

  /** The smallest lengths with which each kind of request leaves the buffer. */
  lemma LengthsThatOverrun(t: Tables, index: uint16, value: uint16)
    ensures !InBuffer(t, Setup(ATUSB_TO_DEV, ATUSB_SPI_WRITE1, value, index, 255))
    ensures !InBuffer(t, Setup(ATUSB_TO_DEV, ATUSB_SPI_WRITE2, value, index, 254))
    ensures !InBuffer(t, Setup(ATUSB_TO_DEV, ATUSB_SPI_WRITE2, value, index, 255))
    ensures !InBuffer(t, Setup(ATUSB_FROM_DEV, ATUSB_SPI_READ1, value, index, 9))
    ensures !InBuffer(t, Setup(ATUSB_FROM_DEV, ATUSB_SPI_READ2, value, index, 9))
    ensures |t.date| > 1 ==> !InBuffer(t, Setup(ATUSB_FROM_DEV, ATUSB_BUILD, value, index, 64))
  {}

  /** The request in this event, if there is one, is answered from inside the buffer. */
  predicate InsideStep(t: Tables, d: Device, e: Event) {
    d.halt == Running && d.handler == Vendor && e.Interrupt? && e.flags.setup.Some? ==> InBuffer(t, e.flags.setup.value)
  }

  /** So are all requests of a run. */
  ghost predicate Inside(t: Tables, d: Device, events: seq<Event>)
    requires WellFormed(t) && IsRun(events)
    decreases |events|
  {
    events == [] ||
    (InsideStep(t, d, events[0]) && (assert Possible(events[0]); Inside(t, Step(t, d, events[0]), events[1..])))
  }

  // ----- BUG_ON never fires -----

  /** The vendor requests that start a transfer. */
  predicate VendorStarts(t: Tables, s: Setup, e: Env) {
    && InBuffer(t, s)
    && (|| (s.bmRequestType == ATUSB_FROM_DEV
            && (|| (s.bRequest == ATUSB_ID && s.wLength <= 2)
                || (s.bRequest == ATUSB_BUILD && |BuildString(t)| <= s.wLength)
                || (s.bRequest == ATUSB_GPIO && s.wLength >= 3 && e.ok)
                || s.bRequest == ATUSB_NRF_READ || s.bRequest == ATUSB_ETH_READ
                || IsSpiRead(s)
                || (s.bRequest == ATUSB_GET_ID && s.wLength == 1)))
        || (IsSpiWrite(s) && s.wLength != 0 && (s.wLength + HeaderSize(s)) % 0x100 <= EP0_SIZE))
  }

  /** A block of a download or upload that is in sequence and fits. */
  predicate BlockStarts(d: Device, s: Setup, e: Env) {
    || (&& s.bmRequestType == DFU_TO_DEV && s.bRequest == DFU_DNLOAD && 1 <= s.wLength <= EP0_SIZE && e.ok
        && (d.dfu == DfuIdle || (d.dfu == DnloadIdle && s.wValue == d.nextBlock)))
    || (&& s.bmRequestType == DFU_FROM_DEV && s.bRequest == DFU_UPLOAD && s.wLength <= EP0_SIZE
        && (d.dfu == DfuIdle || (d.dfu == UploadIdle && s.wValue == d.nextBlock)))
  }

  predicate StatusStarts(s: Setup) {
    s.bmRequestType == DFU_FROM_DEV && (s.bRequest == DFU_GETSTATUS || s.bRequest == DFU_GETSTATE)
  }

  /** The requests of the handler installed that start a transfer. */
  predicate UserStarts(t: Tables, d: Device, s: Setup, e: Env) {
    || (d.handler == Vendor && VendorStarts(t, s, e))
    || (d.handler != Vendor && StatusStarts(s))
    || (d.handler == Loader && BlockStarts(d, s, e))
  }

  /** The requests that make the device start a transfer on the control endpoint, by type, number, length,
      the handler installed and the state of a download. */
  predicate Starts(t: Tables, d: Device, s: Setup, e: Env) {
    || (s.bmRequestType == 0x80
        && (|| (s.bRequest == GET_STATUS && s.wLength == 2)
            || (s.bRequest == GET_DESCRIPTOR && Descriptor(t, d.handler, s.wValue / 0x100, s.wValue % 0x100).Some?)
            || s.bRequest == GET_CONFIGURATION))
    || (s.bmRequestType == 0x00 && s.bRequest == SET_ADDRESS)
    || UserStarts(t, d, s, e)
  }

  /** `c` is what a request has made of `d`: at most one transfer has been started, on the control endpoint,
      exactly if the request starts one. */
  predicate StartsOne(d: Device, c: Device, starts: bool) {
    && (c.halt == Panic <==> d.eps[0] != Idle && starts)
    && (c.halt != Panic ==>
          && c.eps[1] == d.eps[1] && c.eps[2] == d.eps[2]
          && (if d.eps[0] == Idle then c.eps[0] != Idle <==> starts else c.eps[0] == d.eps[0]))
  }

  lemma OneTransfer(t: Tables, d: Device, s: Setup, e: Env)
    requires WellFormed(t) && d.halt == Running
    ensures StartsOne(d, HandleSetup(t, d, s, e).0, Starts(t, d, s, e))
  {
    hide Find, Descriptor, UserSetup, SetInterface, VendorStarts, BlockStarts;
    UserOneTransfer(t, d, s, e);
    UserTypes(t, d, s, e);
    SelectsOnly(t, d, s);
  }

  /** The requests of the user's handlers are told from the standard ones by their types. */
  lemma UserTypes(t: Tables, d: Device, s: Setup, e: Env)
    ensures VendorStarts(t, s, e) ==> s.bmRequestType in {ATUSB_TO_DEV, ATUSB_FROM_DEV}
    ensures BlockStarts(d, s, e) ==> s.bmRequestType in {DFU_TO_DEV, DFU_FROM_DEV}
  {}

  lemma SelectsOnly(t: Tables, d: Device, s: Setup)
    requires WellFormed(t)
    ensures SetInterface(t, d, s).0.eps == d.eps && SetInterface(t, d, s).0.halt == d.halt
  {}

  lemma UserOneTransfer(t: Tables, d: Device, s: Setup, e: Env)
    requires d.halt == Running
    ensures StartsOne(d, UserSetup(t, d, s, e).0, UserStarts(t, d, s, e))
  {
    hide VendorSetup, LoaderSetup, VendorStarts;
    match d.handler
    case Vendor => VendorOneTransfer(t, d, s, e);
    case Runtime =>
    case Loader => LoaderOneTransfer(d, s, e);
  }

  lemma VendorOneTransfer(t: Tables, d: Device, s: Setup, e: Env)
    requires d.halt == Running
    ensures StartsOne(d, VendorSetup(t, d, s, e).0, VendorStarts(t, s, e))
    ensures VendorSetup(t, d, s, e).0.halt == Overrun <==> !InBuffer(t, s)
  {
    hide InBuffer, Reach, BuildString;
    InBufferExactly(t, s);
  }

  lemma LoaderOneTransfer(d: Device, s: Setup, e: Env)
    requires d.halt == Running
    ensures StartsOne(d, LoaderSetup(d, s, e).0,
      BlockStarts(d, s, e) || StatusStarts(s))
  {
    hide Dnload, Upload;
    DnloadOneTransfer(d, s, e);
    UploadOneTransfer(d, s, e);
  }

  lemma DnloadOneTransfer(d: Device, s: Setup, e: Env)
    requires d.halt == Running
    ensures StartsOne(d, Dnload(d, s, e).0, 1 <= s.wLength <= EP0_SIZE && e.ok
      && (d.dfu == DfuIdle || (d.dfu == DnloadIdle && s.wValue == d.nextBlock)))
    ensures Dnload(d, s, e).0.halt in {Running, Panic}
  {}

  lemma UploadOneTransfer(d: Device, s: Setup, e: Env)
    requires d.halt == Running
    ensures StartsOne(d, Upload(d, s, e).0, s.wLength <= EP0_SIZE
      && (d.dfu == DfuIdle || (d.dfu == UploadIdle && s.wValue == d.nextBlock)))
    ensures Upload(d, s, e).0.halt in {Running, Panic}
  {}

  /** How a request can end the program. */
  lemma RequestHalts(t: Tables, d: Device, s: Setup, e: Env)
    requires WellFormed(t) && d.halt == Running
    ensures HandleSetup(t, d, s, e).0.halt == Overrun <==> d.handler == Vendor && !InBuffer(t, s)
  {
    hide Find, Descriptor, SetInterface, VendorSetup, LoaderSetup, InBuffer;
    SelectsOnly(t, d, s);
    match d.handler
    case Vendor =>
      VendorOneTransfer(t, d, s, e);
      VendorTypes(t, s);
    case Runtime =>
    case Loader => LoaderHalts(d, s, e);
  }

  lemma VendorTypes(t: Tables, s: Setup)
    ensures !InBuffer(t, s) ==> s.bmRequestType in {ATUSB_TO_DEV, ATUSB_FROM_DEV}
  {}

  lemma LoaderHalts(d: Device, s: Setup, e: Env)
    requires d.halt == Running
    ensures LoaderSetup(d, s, e).0.halt in {Running, Panic}
  {
    hide Dnload, Upload;
    DnloadOneTransfer(d, s, e);
    UploadOneTransfer(d, s, e);
  }

  lemma StepNoPanic(t: Tables, d: Device, e: Event)
    requires WellFormed(t) && Possible(e) && d.halt != Panic
    ensures Step(t, d, e).halt != Panic
    ensures Step(t, d, e).halt == Overrun <==> d.halt == Overrun || !InsideStep(t, d, e)
  {
    hide HandleSetup, HandleData, Starts, InBuffer;
    if d.halt == Running && e.Interrupt? {
      DataHalts(d, e.n, e.flags);
      if e.flags.setup.Some? {
        var i := Usb.Cancel(d, 0);
        OneTransfer(t, i, e.flags.setup.value, e.env);
        RequestHalts(t, i, e.flags.setup.value, e.env);
        DataHalts(EpSetup(t, i, e.flags.setup.value, e.env).0, 0, e.flags);
      }
    }
  }

  lemma DataHalts(d: Device, n: nat, f: Flags)
    requires n < NUM_EPS
    ensures HandleData(d, n, f).halt == d.halt
  {
    hide NextPacket, AfterPacket, AfterReceive;
    assert n == 0 || n == 1 || n == 2;
  }

  /** In every run with SETUP packets on the control endpoint only, from every state of the endpoints,
      `usb_io` finds its endpoint idle: the BUG_ON in it does not fire as long as the variables can be relied
      on. They can be relied on throughout exactly if every request stays inside the buffer. */
  lemma {:induction false} NeverPanics(t: Tables, d: Device, events: seq<Event>)
    requires WellFormed(t) && IsRun(events) && d.halt != Panic
    ensures Run(t, d, events).halt != Panic
    ensures Run(t, d, events).halt == Overrun <==> d.halt == Overrun || !Inside(t, d, events)
    decreases |events|
  {
    hide Step, InsideStep;
    if events == [] {
    } else {
      assert Possible(events[0]);
      StepNoPanic(t, d, events[0]);
      NeverPanics(t, Step(t, d, events[0]), events[1..]);
    }
  }

  /** Why SETUP must come on the control endpoint: on another it would leave a transfer on the control
      endpoint alone, and make the BUG_ON fire exactly if there is one and the request starts another. */
  lemma StraySetupPanics(t: Tables, d: Device, n: nat, f: Flags, e: Env)
    requires WellFormed(t) && d.halt == Running && 0 < n < NUM_EPS && f.setup.Some?
    ensures HandleEp(t, d, n, f, e).halt == Panic <==> d.eps[0] != Idle && Starts(t, d, f.setup.value, e)
  {
    hide HandleSetup, HandleData, Starts;
    OneTransfer(t, Usb.Cancel(d, n), f.setup.value, e);
    StartsSame(t, d, Usb.Cancel(d, n), f.setup.value, e);
    DataHalts(EpSetup(t, Usb.Cancel(d, n), f.setup.value, e).0, n, f);
  }

  lemma StartsSame(t: Tables, d: Device, c: Device, s: Setup, e: Env)
    requires c.handler == d.handler && c.dfu == d.dfu && c.nextBlock == d.nextBlock
    ensures Starts(t, c, s, e) <==> Starts(t, d, s, e)
  {}

  // ----- Frames from the host -----

  predicate Whole(effects: seq<Effect>) {
    forall i :: 0 <= i < |effects| && effects[i].FrameIn? ==> |effects[i].frame| == PAYLOAD_SIZE
  }

  lemma WholeSnoc(effects: seq<Effect>)
    requires Whole(effects)
    ensures forall e: Effect {:trigger effects + [e]} ::
      !e.FrameIn? || |e.frame| == PAYLOAD_SIZE ==> Whole(effects + [e])
  {}

  predicate Fine(x: Transfer) {
    x.Rx? ==> |x.got| <= x.want && (x.callback == UsbIn ==> x.want == PAYLOAD_SIZE)
  }

  predicate FramesInv(d: Device) {
    Fine(d.eps[0]) && Fine(d.eps[1]) && Fine(d.eps[2]) && Whole(d.effects)
  }

  lemma RequestKeepsFrames(t: Tables, d: Device, s: Setup, e: Env)
    requires WellFormed(t) && FramesInv(d)
    ensures FramesInv(HandleSetup(t, d, s, e).0)
  {
    hide Find, Descriptor, UserSetup, Whole;
    UserKeepsFrames(t, d, s, e);
  }

  lemma UserKeepsFrames(t: Tables, d: Device, s: Setup, e: Env)
    requires FramesInv(d)
    ensures FramesInv(UserSetup(t, d, s, e).0)
  {
    hide VendorSetup, LoaderSetup, Whole;
    match d.handler
    case Vendor => VendorKeepsFrames(t, d, s, e);
    case Runtime => CommonKeepsFrames(d, s);
    case Loader => LoaderKeepsFrames(d, s, e);
  }

  lemma VendorKeepsFrames(t: Tables, d: Device, s: Setup, e: Env)
    requires FramesInv(d)
    ensures FramesInv(VendorSetup(t, d, s, e).0)
  {
    hide Whole;
    WholeSnoc(d.effects);
  }

  lemma CommonKeepsFrames(d: Device, s: Setup)
    requires FramesInv(d)
    ensures FramesInv(DfuCommon(d, s).0)
  {
    hide Whole;
  }

  lemma LoaderKeepsFrames(d: Device, s: Setup, e: Env)
    requires FramesInv(d)
    ensures FramesInv(LoaderSetup(d, s, e).0)
  {
    hide Whole, Dnload, Upload;
    DnloadKeepsFrames(d, s, e);
    UploadKeepsFrames(d, s, e);
  }

  lemma DnloadKeepsFrames(d: Device, s: Setup, e: Env)
    requires FramesInv(d)
    ensures FramesInv(Dnload(d, s, e).0)
  {
    hide Whole;
    WholeSnoc(d.effects);
    WholeSnoc(Begin(d, s).effects);
  }

  lemma UploadKeepsFrames(d: Device, s: Setup, e: Env)
    requires FramesInv(d)
    ensures FramesInv(Upload(d, s, e).0)
  {
    hide Whole;
    WholeSnoc(d.effects);
  }

  lemma ReceiveKeepsFrames(d: Device, n: nat, packet: seq<uint8>)
    requires FramesInv(d) && n < NUM_EPS && d.eps[n].Rx?
    ensures FramesInv(ReceivePacket(d, n, packet).0)
  {
    hide Whole;
    WholeSnoc(d.effects);
  }

  lemma TransmitKeepsFrames(d: Device, n: nat)
    requires FramesInv(d) && n < NUM_EPS && d.eps[n].Tx?
    ensures FramesInv(TransmitPacket(d, n))
  {
    hide Whole, NextPacket;
    WholeSnoc(d.effects);
  }

  lemma StallKeepsFrames(d: Device, n: nat)
    requires FramesInv(d) && n < NUM_EPS
    ensures FramesInv(Usb.Stall(d, n))
  {
    hide Whole;
    WholeSnoc(d.effects);
  }

  lemma DataKeepsFrames(d: Device, n: nat, f: Flags)
    requires FramesInv(d) && n < NUM_EPS
    ensures FramesInv(HandleData(d, n, f))
  {
    hide Whole, ReceivePacket, TransmitPacket, Usb.Stall;
    StallKeepsFrames(d, n);
    var c := d;
    if f.out.Some? && d.eps[n].Rx? {
      ReceiveKeepsFrames(d, n, f.out.value);
      c := ReceivePacket(d, n, f.out.value).0;
      StallKeepsFrames(c, n);
    }
    var b := if f.stalled then Usb.Cancel(c, n) else c;
    if b.eps[n].Tx? {
      TransmitKeepsFrames(b, n);
    }
  }

  lemma InterruptKeepsFrames(t: Tables, d: Device, n: nat, f: Flags, e: Env)
    requires WellFormed(t) && n < NUM_EPS && FramesInv(d)
    ensures FramesInv(HandleEp(t, d, n, f, e))
  {
    hide HandleSetup, HandleData, Whole, Usb.Stall;
    if f.setup.Some? {
      RequestKeepsFrames(t, Usb.Cancel(d, n), f.setup.value, e);
      StallKeepsFrames(EpSetup(t, Usb.Cancel(d, n), f.setup.value, e).0, n);
      DataKeepsFrames(EpSetup(t, Usb.Cancel(d, n), f.setup.value, e).0, n, f);
    } else {
      DataKeepsFrames(d, n, f);
    }
  }

  lemma StepKeepsFrames(t: Tables, d: Device, e: Event)
    requires WellFormed(t) && Possible(e) && FramesInv(d)
    ensures FramesInv(Step(t, d, e))
  {
    hide HandleEp, Whole;
    if e.Interrupt? {
      InterruptKeepsFrames(t, d, e.n, e.flags, e.env);
    }
  }

  lemma {:induction false} RunKeepsFrames(t: Tables, d: Device, events: seq<Event>)
    requires WellFormed(t) && IsRun(events) && FramesInv(d)
    ensures FramesInv(Run(t, d, events))
    decreases |events|
  {
    hide Step, FramesInv;
    if events == [] {
    } else {
      assert Possible(events[0]);
      StepKeepsFrames(t, d, events[0]);
      RunKeepsFrames(t, Step(t, d, events[0]), events[1..]);
    }
  }

  /** In every run from the start, every frame that `usb_in` is given has its sixteen bytes. */
  lemma FramesAreWhole(t: Tables, loader: bool, events: seq<Event>)
    requires WellFormed(t) && IsRun(events)
    ensures Whole(Run(t, Initial(loader), events).effects)
  {
    RunKeepsFrames(t, Initial(loader), events);
  }

  // ----- Control reads -----

  /** `k` events in which the host takes a packet from an endpoint. */
  function Txinis(n: nat, k: nat): (r: seq<Event>)
    ensures |r| == k && forall i :: 0 <= i < k ==> r[i] == Interrupt(n, Flags(None, None, false, true), Env([], false))
  {
    seq(k, _ => Interrupt(n, Flags(None, None, false, true), Env([], false)))
  }

  /** The packets among an endpoint's actions, as effects of the device. */
  function SentBy(n: nat, actions: seq<Action>): seq<Effect> {
    if actions == [] then []
    else (if actions[0].Packet? then [Sent(n, actions[0].bytes)] else []) + SentBy(n, actions[1..])
  }

  lemma {:induction false} SentByConcat(n: nat, a: seq<Action>, b: seq<Action>)
    ensures SentBy(n, a + b) == SentBy(n, a) + SentBy(n, b)
  {
    if a == [] {
      assert a + b == b;
    } else {
      SentByConcat(n, a[1..], b);
      var head := if a[0].Packet? then [Sent(n, a[0].bytes)] else [];
      assert (a + b)[0] == a[0] && (a + b)[1..] == a[1..] + b;
      assert SentBy(n, a + b) == head + SentBy(n, a[1..] + b);
      Assoc(head, SentBy(n, a[1..]), SentBy(n, b));
    }
  }

  /** A run of TXINI events moves the device as it moves the endpoint. */
  lemma {:induction false} TransmitRun(t: Tables, d: Device, n: nat, k: nat)
    requires WellFormed(t) && n < NUM_EPS && d.halt == Running && (d.eps[n].Tx? ==> d.eps[n].callback == Nothing)
    ensures IsRun(Txinis(n, k))
    ensures var (x, actions) := TxRun(d.eps[n], EP_SIZES[n], k);
      Run(t, d, Txinis(n, k)) == d.(eps := d.eps[n := x], effects := d.effects + SentBy(n, actions))
    decreases k
  {
    hide NextPacket, AfterPacket;
    if k == 0 {
      assert d.eps[n := d.eps[n]] == d.eps && d.effects + [] == d.effects;
    } else {
      var c := TransmitOne(t, d, n);
      assert Txinis(n, k)[1..] == Txinis(n, k - 1);
      TransmitRun(t, c, n, k - 1);
      var (u, a) := Txini(d.eps[n], EP_SIZES[n]);
      var (x, rest) := TxRun(u, EP_SIZES[n], k - 1);
      SentByConcat(n, a, rest);
      assert d.eps[n := u][n := x] == d.eps[n := x];
      Assoc(d.effects, SentBy(n, a), SentBy(n, rest));
    }
  }

  /** One TXINI event. */
  lemma TransmitOne(t: Tables, d: Device, n: nat) returns (c: Device)
    requires WellFormed(t) && n < NUM_EPS && d.halt == Running && (d.eps[n].Tx? ==> d.eps[n].callback == Nothing)
    ensures c == Step(t, d, Txinis(n, 1)[0])
    ensures var (x, actions) := Txini(d.eps[n], EP_SIZES[n]);
      c == d.(eps := d.eps[n := x], effects := d.effects + SentBy(n, actions)) && (x.Tx? ==> x.callback == Nothing)
  {
    c := Step(t, d, Txinis(n, 1)[0]);
    assert d.eps[n := d.eps[n]] == d.eps;
  }

  function Packets0(packets: seq<seq<uint8>>): (r: seq<Effect>)
    ensures |r| == |packets| && forall i :: 0 <= i < |r| ==> r[i] == Sent(0, packets[i])
  {
    seq(|packets|, i requires 0 <= i < |packets| => Sent(0, packets[i]))
  }

  lemma {:induction false} SentByPackets(packets: seq<seq<uint8>>)
    ensures SentBy(0, Endpoint.Packets(packets)) == Packets0(packets)
    decreases |packets|
  {
    if packets == [] {
    } else {
      SentByPackets(packets[1..]);
      assert Endpoint.Packets(packets)[1..] == Endpoint.Packets(packets[1..]);
      assert Packets0(packets) == [Sent(0, packets[0])] + Packets0(packets[1..]);
    }
  }

  function SetupEvent(s: Setup, e: Env): Event {
    Interrupt(0, Flags(Some(s), None, false, false), e)
  }

  /**
   Whatever the control endpoint was doing, a request for a descriptor followed by enough IN tokens
   makes the device send the first `wLength` bytes of the descriptor, in packets that are full but for
   the last, and nothing else.
   */
  lemma DescriptorIsRead(t: Tables, d: Device, s: Setup, e: Env, bytes: seq<uint8>, k: nat)
    returns (packets: seq<seq<uint8>>)
    requires WellFormed(t) && d.halt == Running && s.bmRequestType == 0x80 && s.bRequest == GET_DESCRIPTOR
    requires Descriptor(t, d.handler, s.wValue / 0x100, s.wValue % 0x100) == Some(bytes)
    requires k >= Endpoint.Count(|Usb.Cut(bytes, s.wLength)|, EP0_SIZE)
    ensures IsRun([SetupEvent(s, e)] + Txinis(0, k))
    ensures Chopped(packets, EP0_SIZE) && Concat(packets) == Usb.Cut(bytes, s.wLength)
    ensures Run(t, d, [SetupEvent(s, e)] + Txinis(0, k))
         == d.(eps := d.eps[0 := Idle], effects := d.effects + Packets0(packets))
  {
    hide Descriptor, Find, TxRun, Chopped, SentBy, WellFormed;
    var left := Usb.Cut(bytes, s.wLength);
    var c := d.(eps := d.eps[0 := Tx(left, Nothing)]);
    DescriptorLoaded(t, d, s, e, bytes);
    var events := [SetupEvent(s, e)] + Txinis(0, k);
    assert events[1..] == Txinis(0, k);
    packets := SendsBuffer(left, Nothing, EP0_SIZE, k);
    TransmitRun(t, c, 0, k);
    assert Endpoint.Packets(packets) + [] == Endpoint.Packets(packets);
    SentByPackets(packets);
    assert c.eps[0 := Idle] == d.eps[0 := Idle];
  }

  lemma DescriptorLoaded(t: Tables, d: Device, s: Setup, e: Env, bytes: seq<uint8>)
    requires WellFormed(t) && d.halt == Running && s.bmRequestType == 0x80 && s.bRequest == GET_DESCRIPTOR
    requires Descriptor(t, d.handler, s.wValue / 0x100, s.wValue % 0x100) == Some(bytes)
    ensures Step(t, d, SetupEvent(s, e)) == d.(eps := d.eps[0 := Tx(Usb.Cut(bytes, s.wLength), Nothing)])
  {
    hide Descriptor, Find, UserSetup, SetInterface;
    var x := Tx(Usb.Cut(bytes, s.wLength), Nothing);
    assert d.eps[0 := Idle][0 := x] == d.eps[0 := x];
  }

  /** A new address is stored at once but answered to only after the empty status packet has been sent. */
  lemma AddressAfterStatus(t: Tables, d: Device, s: Setup, e: Env)
    requires WellFormed(t) && d.halt == Running
    requires s.bmRequestType == 0x00 && s.bRequest == SET_ADDRESS && s.wValue < 0x80
    ensures Step(t, d, SetupEvent(s, e)).udaddr == s.wValue
    ensures Step(t, Step(t, d, SetupEvent(s, e)), Txinis(0, 1)[0])
         == d.(eps := d.eps[0 := Idle], udaddr := s.wValue + 0x80, effects := d.effects + [Sent(0, [])])
  {
    hide Descriptor, Find, UserSetup, SetInterface;
    var c := Step(t, d, SetupEvent(s, e));
    assert c.eps == d.eps[0 := Tx([], EnableAddr)];
    assert c.eps[0 := Idle] == d.eps[0 := Idle];
  }

  /** The answer to DFU_GETSTATUS is one packet with the status, a poll timeout of 100 ms, the state and
      no string. */
  lemma StatusIsRead(t: Tables, d: Device, s: Setup, e: Env)
    requires WellFormed(t) && d.halt == Running && d.handler != Vendor
    requires s.bmRequestType == DFU_FROM_DEV && s.bRequest == DFU_GETSTATUS
    ensures Step(t, Step(t, d, SetupEvent(s, e)), Txinis(0, 1)[0])
         == d.(eps := d.eps[0 := Idle], effects := d.effects + [Sent(0, [d.status, 100, 0, 0, d.dfu.Code(), 0])])
  {
    hide Descriptor, Find, SetInterface;
    var c := Step(t, d, SetupEvent(s, e));
    assert c.eps == d.eps[0 := Tx([d.status, 100, 0, 0, d.dfu.Code(), 0], Nothing)];
    assert c.eps[0 := Idle] == d.eps[0 := Idle];
  }

  // ----- Data from the host -----

  function OutEvent(n: nat, data: seq<uint8>): Event {
    Interrupt(n, Flags(None, Some(data), false, false), Env([], false))
  }

  function OutEvents(n: nat, packets: seq<seq<uint8>>): (r: seq<Event>)
    ensures |r| == |packets| && forall i :: 0 <= i < |r| ==> r[i] == OutEvent(n, packets[i])
  {
    seq(|packets|, i requires 0 <= i < |packets| => OutEvent(n, packets[i]))
  }

  function FramesIn(frames: seq<seq<uint8>>): (r: seq<Effect>)
    ensures |r| == |frames| && forall i :: 0 <= i < |r| ==> r[i] == FrameIn(frames[i])
  {
    seq(|frames|, i requires 0 <= i < |frames| => FrameIn(frames[i]))
  }

  /** What OUT packets on the data endpoint make the device do. */
  function RxEffects(x: Transfer, packets: seq<seq<uint8>>): seq<Effect>
    decreases |packets|
  {
    if packets == [] then []
    else
      var (u, stalled, done) := Rxouti(x, packets[0]);
      (if stalled then [Stalled(1)] else if done.Some? then [FrameIn(done.value)] else []) + RxEffects(u, packets[1..])
  }

  /** A run of OUT packets on the data endpoint moves the device as it moves the endpoint. */
  lemma {:induction false} ReceiveRun(t: Tables, d: Device, packets: seq<seq<uint8>>)
    requires WellFormed(t) && d.halt == Running && (d.eps[1].Rx? ==> d.eps[1].callback == UsbIn)
    ensures IsRun(OutEvents(1, packets))
    ensures Run(t, d, OutEvents(1, packets))
         == d.(eps := d.eps[1 := RxRun(d.eps[1], packets).0], effects := d.effects + RxEffects(d.eps[1], packets))
    decreases |packets|
  {
    hide Rxouti;
    if packets == [] {
      assert d.eps[1 := d.eps[1]] == d.eps && d.effects + [] == d.effects;
    } else {
      var c := Step(t, d, OutEvent(1, packets[0]));
      var (u, stalled, done) := Rxouti(d.eps[1], packets[0]);
      ReceiveOne(t, d, packets[0]);
      assert OutEvents(1, packets)[1..] == OutEvents(1, packets[1..]);
      ReceiveRun(t, c, packets[1..]);
      var x := RxRun(u, packets[1..]).0;
      assert d.eps[1 := u][1 := x] == d.eps[1 := x];
      Assoc(d.effects, if stalled then [Stalled(1)] else if done.Some? then [FrameIn(done.value)] else [],
            RxEffects(u, packets[1..]));
    }
  }

  lemma ReceiveOne(t: Tables, d: Device, packet: seq<uint8>)
    requires WellFormed(t) && d.halt == Running && (d.eps[1].Rx? ==> d.eps[1].callback == UsbIn)
    ensures var (u, stalled, done) := Rxouti(d.eps[1], packet);
      && Step(t, d, OutEvent(1, packet))
         == d.(eps := d.eps[1 := u],
               effects := d.effects
                 + if stalled then [Stalled(1)] else if done.Some? then [FrameIn(done.value)] else [])
      && (u.Rx? ==> u.callback == UsbIn)
  {
    assert d.effects + [] == d.effects;
  }

  /** Without a stall only the completed frames are delivered. */
  lemma {:induction false} AcceptedEffects(x: Transfer, packets: seq<seq<uint8>>)
    ensures RxRun(x, packets).1 <= |packets|
    ensures RxRun(x, packets).1 == |packets| ==> RxEffects(x, packets) == FramesIn(RxRun(x, packets).2)
    decreases |packets|
  {
    hide Rxouti;
    if packets == [] {
    } else {
      var (u, stalled, done) := Rxouti(x, packets[0]);
      AcceptedEffects(u, packets[1..]);
      var first, rest := if done.Some? then [done.value] else [], RxRun(u, packets[1..]).2;
      assert FramesIn(first + rest) == FramesIn(first) + FramesIn(rest);
      assert FramesIn(first) == if done.Some? then [FrameIn(done.value)] else [];
    }
  }

  /** A frame that the host sends in any packets of less than a frame but the last reaches `usb_in` whole
      and once, as soon as its bytes are complete. */
  lemma FrameArrives(t: Tables, d: Device, packets: seq<seq<uint8>>)
    requires WellFormed(t) && d.halt == Running && d.eps[1] == Idle
    requires packets != [] && |Concat(packets)| == PAYLOAD_SIZE
    requires Short([], packets[..|packets| - 1], PAYLOAD_SIZE)
    ensures IsRun([AskForFrame] + OutEvents(1, packets))
    ensures Run(t, d, [AskForFrame] + OutEvents(1, packets)) == d.(effects := d.effects + [FrameIn(Concat(packets))])
  {
    hide RxRun, Concat;
    var c := Step(t, d, AskForFrame);
    assert c == d.(eps := d.eps[1 := Rx([], PAYLOAD_SIZE, UsbIn)]);
    ReceiveRun(t, c, packets);
    var i := ReceivesBuffer([], PAYLOAD_SIZE, UsbIn, packets);
    assert packets[..|packets|] == packets && [] + Concat(packets) == Concat(packets);
    ConcatGrows(packets, |packets| - 1);
    assert i < |packets|;
    assert |Concat(packets[..i + 1])| >= PAYLOAD_SIZE;
    assert i == |packets| - 1;
    assert ([AskForFrame] + OutEvents(1, packets))[1..] == OutEvents(1, packets);
    AcceptedEffects(c.eps[1], packets);
    assert FramesIn([Concat(packets)]) == [FrameIn(Concat(packets))];
    assert c.eps[1 := Idle] == d.eps;
  }

  /** More packets bring no fewer bytes. */
  lemma {:induction false} ConcatGrows(packets: seq<seq<uint8>>, i: nat)
    ensures forall j :: 0 <= j <= i < |packets| ==> |Concat(packets[..j])| <= |Concat(packets[..i])|
    decreases |packets|
  {
    if packets == [] || i == 0 {
    } else if i < |packets| {
      ConcatGrows(packets[1..], i - 1);
      forall j | 0 <= j <= i ensures |Concat(packets[..j])| <= |Concat(packets[..i])| {
        if j > 0 {
          ConcatTake(packets, j);
          ConcatTake(packets, i);
        }
      }
    }
  }

  /** The bytes of a vendor SPI request reach the chip in one piece: those in the request itself, and then
      those received, if any. */
  lemma SpiBytesArrive(t: Tables, d: Device, s: Setup, e: Env, data: seq<uint8>)
    requires WellFormed(t) && d.halt == Running && d.handler == Vendor && s.bmRequestType == ATUSB_TO_DEV
    requires s.bRequest == ATUSB_SPI_WRITE1 || s.bRequest == ATUSB_SPI_WRITE2
    requires |data| == s.wLength
    requires s.bRequest - ATUSB_SPI_WRITE1 + 1 + |data| <= EP0_SIZE
    ensures var head :=
        if s.bRequest == ATUSB_SPI_WRITE1 then [s.wValue % 0x100] else [s.wValue % 0x100, s.wIndex % 0x100];
      var c := Step(t, d, SetupEvent(s, e));
      (if data == [] then c else Step(t, c, OutEvent(0, data)))
        == d.(eps := d.eps[0 := Tx([], Nothing)], effects := d.effects + [SpiWrite(head + data)])
  {
    hide Descriptor, Find, SetInterface, VendorFromDevice, LoaderSetup, DfuCommon, BuildString;
    var head := if s.bRequest == ATUSB_SPI_WRITE1 then [s.wValue % 0x100] else [s.wValue % 0x100, s.wIndex % 0x100];
    var c := Step(t, d, SetupEvent(s, e));
    if data == [] {
      assert head + data == head;
      assert c.eps == d.eps[0 := Tx([], Nothing)];
    } else {
      assert c.eps == d.eps[0 := Rx([], |data|, DoBufWrite(head, |head| + |data|))];
      assert [] + data == data;
      assert c.eps[0 := Tx([], Nothing)] == d.eps[0 := Tx([], Nothing)];
    }
  }

  /** A received frame that the main loop hands to an idle IN endpoint is sent to the host in one packet. */
  lemma FrameIsDelivered(t: Tables, d: Device, frame: seq<uint8>)
    requires WellFormed(t) && d.halt == Running && d.eps[2] == Idle && |frame| == PAYLOAD_SIZE
    ensures Step(t, Step(t, d, OfferFrame(frame)), Txinis(2, 1)[0]) == d.(effects := d.effects + [Sent(2, frame)])
  {
    var c := Step(t, d, OfferFrame(frame));
    assert c.eps[2 := Idle] == d.eps;
  }

  // ----- The walk along the configuration descriptor -----

  /** None of the first `n` descriptors at these offsets has the index and value. */
  predicate NoneOf(config: seq<uint8>, at: seq<nat>, n: nat, wIndex: uint16, wValue: uint16)
    requires n <= |at| && forall k :: 0 <= k < |at| ==> at[k] + 4 <= |config|
  {
    forall k :: 0 <= k < n ==> !Matches(config, at[k], wIndex, wValue)
  }

  lemma NoneOfCons(config: seq<uint8>, p: nat, rest: seq<nat>, n: nat, wIndex: uint16, wValue: uint16)
    requires p + 4 <= |config| && n <= |rest| && forall k :: 0 <= k < |rest| ==> rest[k] + 4 <= |config|
    requires !Matches(config, p, wIndex, wValue) && NoneOf(config, rest, n, wIndex, wValue)
    ensures NoneOf(config, [p] + rest, n + 1, wIndex, wValue)
  {}

  /** The walk finds the first match, and fails only if there is none. */
  lemma {:induction false} FindIsFirst(config: seq<uint8>, p: nat, i: nat, wIndex: uint16, wValue: uint16)
    requires Chain(config, p)
    ensures var at, r := Offsets(config, p), Find(config, p, i, wIndex, wValue);
      match r
      case None => NoneOf(config, at, |at|, wIndex, wValue)
      case Some(j) =>
        && i <= j < i + |at| && Matches(config, at[j - i], wIndex, wValue)
        && NoneOf(config, at, j - i, wIndex, wValue)
    decreases |config| - p
  {
    if p == |config| || Matches(config, p, wIndex, wValue) {
    } else {
      hide Matches, NoneOf;
      var rest := Offsets(config, p + config[p]);
      var r := Find(config, p + config[p], i + 1, wIndex, wValue);
      FindIsFirst(config, p + config[p], i + 1, wIndex, wValue);
      NoneOfCons(config, p, rest, if r.None? then |rest| else r.value - (i + 1), wIndex, wValue);
    }
  }

  /** The configuration of firmware/descr.c: two interfaces, and two endpoints in between. */
  const CONFIG: seq<uint8> :=
    [9, 2, 41, 0, 2, 1, 0, 0x80, 20]
    + [9, 4, 0, 0, 2, 0xff, 0, 0, 0]
    + [7, 5, 0x01, 2, 64, 0, 0]
    + [7, 5, 0x82, 2, 64, 0, 0]
    + [9, 4, 1, 0, 0, 0xfe, 1, 1, 0]

  lemma ConfigIsAChain()
    ensures |CONFIG| == 41 && CONFIG[2] == 41 && Chain(CONFIG, 9) && Offsets(CONFIG, 9) == [9, 18, 25, 32]
  {
    assert Chain(CONFIG, 41) && Offsets(CONFIG, 41) == [];
    assert Chain(CONFIG, 32) && Offsets(CONFIG, 32) == [32];
    assert Chain(CONFIG, 25) && Offsets(CONFIG, 25) == [25, 32];
    assert Chain(CONFIG, 18) && Offsets(CONFIG, 18) == [18, 25, 32];
  }

  /** What SET_INTERFACE selects: the walk counts endpoint descriptors too, so that the DFU interface is
      number three, and an endpoint's address and attributes select it as well. */
  lemma WhatIsSelected(wIndex: uint16, wValue: uint16)
    ensures Chain(CONFIG, 9)
    ensures Find(CONFIG, 9, 0, wIndex, wValue) ==
      if wIndex == 0 && wValue == 0 then Some(0)
      else if wIndex == 1 && wValue == 2 then Some(1)
      else if wIndex == 0x82 && wValue == 2 then Some(2)
      else if wIndex == 1 && wValue == 0 then Some(3)
      else None
  {
    ConfigIsAChain();
    assert Chain(CONFIG, 41) && Find(CONFIG, 41, 4, wIndex, wValue) == None;
    assert Chain(CONFIG, 32) && Find(CONFIG, 32, 3, wIndex, wValue)
      == if wIndex == 1 && wValue == 0 then Some(3) else None;
    assert Chain(CONFIG, 25) && Find(CONFIG, 25, 2, wIndex, wValue)
      == if Matches(CONFIG, 25, wIndex, wValue) then Some(2) else Find(CONFIG, 32, 3, wIndex, wValue);
    assert Chain(CONFIG, 18) && Find(CONFIG, 18, 1, wIndex, wValue)
      == if Matches(CONFIG, 18, wIndex, wValue) then Some(1) else Find(CONFIG, 25, 2, wIndex, wValue);
    assert Find(CONFIG, 9, 0, wIndex, wValue)
      == if Matches(CONFIG, 9, wIndex, wValue) then Some(0) else Find(CONFIG, 18, 1, wIndex, wValue);
  }

  /** A request to select an interface's setting. */
  function Select(wIndex: uint16, wValue: uint16): Event {
    SetupEvent(Setup(0x01, SET_INTERFACE, wValue, wIndex, 0), Env([], false))
  }

  function Query(kind: uint8, request: uint8, length: uint16): Event {
    SetupEvent(Setup(kind, request, 0, 0, length), Env([], false))
  }

  /** What selecting an interface is for: after the first one the device answers vendor requests and
      refuses those of DFU, after the DFU interface it is the other way round, and so back and forth. */
  lemma InterfaceDecides(t: Tables, d: Device)
    requires WellFormed(t) && t.config == CONFIG && d.halt == Running && d.handler != Loader
    ensures var c := Step(t, d, Select(0, 0));
      && Step(t, c, Query(ATUSB_FROM_DEV, ATUSB_ID, 2)).eps[0] == Tx(ID, Nothing)
      && Step(t, c, Query(DFU_FROM_DEV, DFU_GETSTATE, 1)).eps[0] == Idle
    ensures var c := Step(t, d, Select(1, 0));
      && Step(t, c, Query(ATUSB_FROM_DEV, ATUSB_ID, 2)).eps[0] == Idle
      && Step(t, c, Query(DFU_FROM_DEV, DFU_GETSTATE, 1)).eps[0] == Tx([AppIdle.Code()], Nothing)
      && Step(t, c, Select(0, 0)).handler == Vendor
  {
    hide Find, Descriptor, Chain, WellFormed, Reach;
    Selected(t, d, 0);
    Selected(t, d, 1);
    Selected(t, Step(t, d, Select(1, 0)), 0);
    assert ID[..2] == ID;
    HandlerAnswers(t, Step(t, d, Select(0, 0)));
    HandlerAnswers(t, Step(t, d, Select(1, 0)));
  }

  lemma Selected(t: Tables, d: Device, index: uint16)
    requires WellFormed(t) && t.config == CONFIG && d.halt == Running && d.handler != Loader && index <= 1
    ensures var c := Step(t, d, Select(index, 0));
      && c.halt == Running && c.handler == (if index == 0 then Vendor else Runtime) && (index == 1 ==> c.dfu == AppIdle)
  {
    hide Find, Descriptor, Chain;
    WhatIsSelected(index, 0);
  }

  lemma HandlerAnswers(t: Tables, d: Device)
    requires WellFormed(t) && d.halt == Running
    ensures d.handler == Vendor ==>
      && Step(t, d, Query(ATUSB_FROM_DEV, ATUSB_ID, 2)).eps[0] == Tx(ID, Nothing)
      && Step(t, d, Query(DFU_FROM_DEV, DFU_GETSTATE, 1)).eps[0] == Idle
    ensures d.handler == Runtime ==>
      && Step(t, d, Query(ATUSB_FROM_DEV, ATUSB_ID, 2)).eps[0] == Idle
      && Step(t, d, Query(DFU_FROM_DEV, DFU_GETSTATE, 1)).eps[0] == Tx([d.dfu.Code()], Nothing)
  {
    hide Find, Descriptor, SetInterface;
    assert ID[..2] == ID;
  }
}

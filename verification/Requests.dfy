/** Which USB requests are accepted, and what each of them answers and does. */
module Requests {
  import opened Machine
  import opened Endpoint
  import opened Usb
  import opened UsbSafety

  // ----- Which requests are accepted -----

  /** The standard requests that are accepted. */
  predicate StandardAccepts(t: Tables, d: Device, s: Setup)
    requires WellFormed(t)
  {
    || (s.bmRequestType == 0x80
        && (|| (s.bRequest == GET_STATUS && s.wLength == 2)
            || (s.bRequest == GET_DESCRIPTOR && Descriptor(t, d.handler, s.wValue / 0x100, s.wValue % 0x100).Some?)
            || s.bRequest == GET_CONFIGURATION))
    || (s.bmRequestType == 0x00
        && (|| s.bRequest == CLEAR_FEATURE || s.bRequest == SET_ADDRESS
            || (s.bRequest == SET_CONFIGURATION && s.wValue == t.config[5])))
    || (s.bmRequestType == 0x01 && s.bRequest == SET_INTERFACE && Find(t.config, 9, 0, s.wIndex, s.wValue).Some?)
  }

  /** The vendor requests that are accepted: those that start a transfer, and writes that need none. */
  predicate VendorAccepts(t: Tables, s: Setup, e: Env) {
    || VendorStarts(t, s, e)
    || (s.bmRequestType == ATUSB_TO_DEV
        && (|| s.bRequest == ATUSB_NRF_WRITE || s.bRequest == ATUSB_ETH_WRITE || s.bRequest == ATUSB_SET_ID))
    || (IsSpiWrite(s) && s.wLength == 0)
  }

  /** A download request that starts no transfer is accepted if it is a retransmission, a wrong number or the
      end; in the wrong state, or with a block that cannot be received, it is refused. */
  predicate DnloadAccepts(d: Device, s: Setup, e: Env) {
    && s.bmRequestType == DFU_TO_DEV && s.bRequest == DFU_DNLOAD
    && (|| (d.dfu == DfuIdle && (s.wLength == 0 || (e.ok && s.wLength <= EP0_SIZE)))
        || (d.dfu == DnloadIdle && (s.wValue != d.nextBlock || s.wLength == 0 || (e.ok && s.wLength <= EP0_SIZE))))
  }

  predicate DfuAccepts(d: Device, s: Setup, e: Env) {
    || StatusStarts(s)
    || (s.bmRequestType == DFU_TO_DEV && (s.bRequest == DFU_CLRSTATUS || s.bRequest == DFU_DETACH))
    || (d.handler == Loader
        && (|| (s.bmRequestType == DFU_TO_DEV && s.bRequest == DFU_ABORT)
            || DnloadAccepts(d, s, e)
            || (s.bmRequestType == DFU_FROM_DEV && s.bRequest == DFU_UPLOAD
                && (d.dfu == DfuIdle || d.dfu == UploadIdle))))
  }

  predicate Accepts(t: Tables, d: Device, s: Setup, e: Env)
    requires WellFormed(t)
  {
    StandardAccepts(t, d, s) || (if d.handler == Vendor then VendorAccepts(t, s, e) else DfuAccepts(d, s, e))
  }

  /** Every request that does not end the program is accepted exactly if the table says so, by type, number,
      value and length, the handler installed and the state of a download. */
  lemma AcceptedExactly(t: Tables, d: Device, s: Setup, e: Env)
    requires WellFormed(t) && d.halt == Running && HandleSetup(t, d, s, e).0.halt == Running
    ensures HandleSetup(t, d, s, e).1 <==> Accepts(t, d, s, e)
  {
    hide Find, Descriptor, UserSetup, VendorAccepts, DfuAccepts, WellFormed;
    UserAccepted(t, d, s, e);
    if d.handler == Vendor {
      VendorKinds(t, s, e);
    } else {
      DfuKinds(d, s, e);
    }
  }

  lemma VendorKinds(t: Tables, s: Setup, e: Env)
    ensures VendorAccepts(t, s, e) ==> s.bmRequestType in {ATUSB_TO_DEV, ATUSB_FROM_DEV}
  {}

  lemma DfuKinds(d: Device, s: Setup, e: Env)
    ensures DfuAccepts(d, s, e) ==> s.bmRequestType in {DFU_TO_DEV, DFU_FROM_DEV}
  {}

  lemma UserAccepted(t: Tables, d: Device, s: Setup, e: Env)
    requires d.halt == Running
    ensures UserSetup(t, d, s, e).0.halt == Running ==>
      (UserSetup(t, d, s, e).1 <==> if d.handler == Vendor then VendorAccepts(t, s, e) else DfuAccepts(d, s, e))
  {
    hide VendorSetup, LoaderSetup, VendorAccepts, DnloadAccepts;
    match d.handler
    case Vendor => VendorAccepted(t, d, s, e);
    case Runtime =>
    case Loader => LoaderAccepted(d, s, e);
  }

  lemma VendorAccepted(t: Tables, d: Device, s: Setup, e: Env)
    requires d.halt == Running
    ensures VendorSetup(t, d, s, e).0.halt == Running ==> (VendorSetup(t, d, s, e).1 <==> VendorAccepts(t, s, e))
  {
    hide InBuffer, Reach, BuildString;
    InBufferExactly(t, s);
  }

  lemma LoaderAccepted(d: Device, s: Setup, e: Env)
    requires d.halt == Running && d.handler == Loader
    ensures LoaderSetup(d, s, e).1 <==> DfuAccepts(d, s, e)
  {
    hide Dnload, Upload, DnloadAccepts;
    DnloadAccepted(d, s, e);
    UploadAccepted(d, s, e);
    DnloadOnly(d, s, e);
  }

  lemma DnloadOnly(d: Device, s: Setup, e: Env)
    ensures DnloadAccepts(d, s, e) ==> s.bmRequestType == DFU_TO_DEV && s.bRequest == DFU_DNLOAD
  {}

  lemma DnloadAccepted(d: Device, s: Setup, e: Env)
    ensures s.bmRequestType == DFU_TO_DEV && s.bRequest == DFU_DNLOAD ==>
      (Dnload(d, s, e).1 <==> DnloadAccepts(d, s, e))
  {}

  lemma UploadAccepted(d: Device, s: Setup, e: Env)
    ensures Upload(d, s, e).1 <==> d.dfu == DfuIdle || d.dfu == UploadIdle
  {}

  /** The last thing done was to stall the control endpoint. */
  predicate Refused(d: Device, c: Device) {
    |c.effects| > |d.effects| && c.effects[|c.effects| - 1] == Stalled(0)
  }

  /** What the host sees of a SETUP alone: a stall exactly if the request is refused, an empty status packet
      exactly if it is one to the device that is accepted and moves no data, otherwise a transfer. */
  lemma SetupOutcome(t: Tables, d: Device, s: Setup, e: Env)
    requires WellFormed(t) && d.halt == Running && Step(t, d, SetupEvent(s, e)).halt == Running
    ensures var c := Step(t, d, SetupEvent(s, e));
      && (Refused(d, c) <==> !Accepts(t, d, s, e))
      && (!Accepts(t, d, s, e) ==> c.eps[0] == Idle)
      && (Accepts(t, d, s, e) && Starts(t, d, s, e) ==> c.eps[0] != Idle)
      && (Accepts(t, d, s, e) && !Starts(t, d, s, e) ==>
            c.eps[0] == if s.bmRequestType < 0x80 then Tx([], Nothing) else Idle)
  {
    hide HandleSetup, Accepts, Starts, Usb.Stall;
    var i := Usb.Cancel(d, 0);
    OneTransfer(t, i, s, e);
    StartsSame(t, d, i, s, e);
    AcceptsSame(t, d, i, s, e);
    NoStall(t, i, s, e);
    StallLogged(HandleSetup(t, i, s, e).0, 0);
    if HandleSetup(t, i, s, e).0.halt == Running {
      AcceptedExactly(t, i, s, e);
    }
  }

  lemma StallLogged(d: Device, n: nat)
    requires n < NUM_EPS
    ensures var c := Usb.Stall(d, n);
      c.effects == d.effects + [Stalled(n)] && c.eps == d.eps[n := Idle] && c.halt == d.halt
  {}

  lemma AcceptsSame(t: Tables, d: Device, c: Device, s: Setup, e: Env)
    requires WellFormed(t) && c.handler == d.handler && c.dfu == d.dfu && c.nextBlock == d.nextBlock
    ensures Accepts(t, c, s, e) <==> Accepts(t, d, s, e)
  {}

  /** No request stalls of itself. */
  predicate Grows(d: Device, c: Device) {
    |c.effects| >= |d.effects| && (|c.effects| > |d.effects| ==> !c.effects[|c.effects| - 1].Stalled?)
  }

  lemma NoStall(t: Tables, d: Device, s: Setup, e: Env)
    requires WellFormed(t)
    ensures Grows(d, HandleSetup(t, d, s, e).0)
  {
    hide Find, Descriptor, VendorSetup, LoaderSetup;
    VendorGrows(t, d, s, e);
    LoaderGrows(d, s, e);
  }

  lemma VendorGrows(t: Tables, d: Device, s: Setup, e: Env)
    ensures Grows(d, VendorSetup(t, d, s, e).0)
  {}

  lemma LoaderGrows(d: Device, s: Setup, e: Env)
    ensures Grows(d, LoaderSetup(d, s, e).0)
  {}

  /** The configuration of this firmware is number one: a host that selects it is acknowledged, any other
      number is refused. */
  lemma ConfigurationOne(t: Tables, d: Device, value: uint16, e: Env)
    requires WellFormed(t) && t.config == CONFIG && d.halt == Running
    ensures var c := Step(t, d, SetupEvent(Setup(0x00, SET_CONFIGURATION, value, 0, 0), e));
      && c.eps[0] == (if value == 1 then Tx([], Nothing) else Idle)
      && (Refused(d, c) <==> value != 1)
  {
    hide Find, Descriptor, UserSetup, WellFormed, Chain;
  }

  // ----- What they answer -----

  /** The device has made `bytes` the answer on the control endpoint and done `done` for it. */
  predicate Answers(t: Tables, d: Device, s: Setup, e: Env, done: seq<Effect>, bytes: seq<uint8>)
    requires WellFormed(t)
  {
    Step(t, d, SetupEvent(s, e)) == d.(eps := d.eps[0 := Tx(bytes, Nothing)], effects := d.effects + done)
  }

  /** The host reads exactly the answer. */
  lemma AnswerIsRead(t: Tables, d: Device, s: Setup, e: Env, done: seq<Effect>, bytes: seq<uint8>, k: nat)
    returns (packets: seq<seq<uint8>>)
    requires WellFormed(t) && d.halt == Running && Answers(t, d, s, e, done, bytes)
    requires k >= Endpoint.Count(|bytes|, EP0_SIZE)
    ensures IsRun([SetupEvent(s, e)] + Txinis(0, k))
    ensures Chopped(packets, EP0_SIZE) && Concat(packets) == bytes
    ensures Run(t, d, [SetupEvent(s, e)] + Txinis(0, k))
         == d.(eps := d.eps[0 := Idle], effects := d.effects + done + Packets0(packets))
  {
    hide TxRun, Chopped, SentBy, WellFormed, Step;
    var c := Step(t, d, SetupEvent(s, e));
    var events := [SetupEvent(s, e)] + Txinis(0, k);
    assert events[1..] == Txinis(0, k);
    packets := SendsBuffer(bytes, Nothing, EP0_SIZE, k);
    TransmitRun(t, c, 0, k);
    assert Endpoint.Packets(packets) + [] == Endpoint.Packets(packets);
    SentByPackets(packets);
    assert c.eps[0 := Idle] == d.eps[0 := Idle];
  }

  lemma StandardAnswers(t: Tables, d: Device, s: Setup, e: Env)
    requires WellFormed(t) && d.halt == Running && s.bmRequestType == 0x80
    ensures s.bRequest == GET_STATUS && s.wLength == 2 ==> Answers(t, d, s, e, [], [0, 0])
    ensures s.bRequest == GET_CONFIGURATION ==> Answers(t, d, s, e, [], [0])
  {
    hide Find, Descriptor, UserSetup, WellFormed;
    SameEps(d, [0, 0]);
    SameEps(d, [0]);
    assert d.effects + [] == d.effects;
  }

  lemma SameEps(d: Device, bytes: seq<uint8>)
    ensures d.eps[0 := Idle][0 := Tx(bytes, Nothing)] == d.eps[0 := Tx(bytes, Nothing)]
  {}

  /** Vendor reads: which register of which chip, and how many bytes of what it returns; the identification
      and the build string. */
  lemma VendorAnswers(t: Tables, d: Device, s: Setup, e: Env)
    requires WellFormed(t) && d.halt == Running && d.handler == Vendor && s.bmRequestType == 0xc0
    ensures s.bRequest == 0x00 && s.wLength <= 2 ==> Answers(t, d, s, e, [], [0, 1][..s.wLength])
    ensures s.bRequest == 0x01 && |t.date| <= 1 && |BuildString(t)| <= s.wLength ==>
      Answers(t, d, s, e, [], [35] + Digits(t.build) + [32] + t.date)
    ensures s.bRequest == 0x10 && s.wLength >= 3 && e.ok && |e.reply| == 3 ==>
      Answers(t, d, s, e, [Gpio(s.wIndex % 256, s.wValue % 256, s.wValue / 256, s.wIndex / 256)], e.reply)
    ensures s.bRequest == 0x21 && |e.reply| == 1 ==> Answers(t, d, s, e, [RegRead(Nrf, s.wIndex % 256)], e.reply)
    ensures s.bRequest == 0x23 && |e.reply| == 2 ==> Answers(t, d, s, e, [RegRead(Eth, s.wIndex % 256)], e.reply)
    ensures s.bRequest == 0x32 && |e.reply| == s.wLength <= 8 ==>
      Answers(t, d, s, e, [SpiRead([s.wValue % 256], s.wLength)], e.reply)
    ensures s.bRequest == 0x33 && |e.reply| == s.wLength <= 8 ==>
      Answers(t, d, s, e, [SpiRead([s.wValue % 256, s.wIndex % 256], s.wLength)], e.reply)
    ensures s.bRequest == 0x40 && s.wLength == 1 && |e.reply| == 1 ==> Answers(t, d, s, e, [], e.reply)
  {
    hide Find, Descriptor, WellFormed, Digits, LoaderSetup, DfuCommon;
    var answer := HandleSetup(t, Usb.Cancel(d, 0), s, e).0.eps[0];
    if answer.Tx? {
      SameEps(d, answer.left);
    }
    assert d.effects + [] == d.effects;
    assert e.reply[..|e.reply|] == e.reply;
  }

  /** The number that decimal digits stand for. */
  function Decimal(digits: seq<uint8>): int {
    if digits == [] then 0 else 10 * Decimal(digits[..|digits| - 1]) + digits[|digits| - 1] - 48
  }

  /** The build string shows the build number, without leading zeros. */
  lemma {:induction false} DigitsAreDecimal(n: nat)
    ensures Decimal(Digits(n)) == n
    ensures forall i :: 0 <= i < |Digits(n)| ==> 48 <= Digits(n)[i] <= 57
    ensures n > 0 ==> Digits(n) != [] && Digits(n)[0] != 48
  {
    hide Decimal;
    if n == 0 {
      NoDigits();
    } else {
      DigitsAreDecimal(n / 10);
      LastDigit(Digits(n / 10), 48 + n % 10);
    }
  }

  lemma NoDigits()
    ensures Decimal([]) == 0
  {}

  lemma LastDigit(digits: seq<uint8>, last: uint8)
    ensures Decimal(digits + [last]) == 10 * Decimal(digits) + last - 48
  {
    assert (digits + [last])[..|digits|] == digits;
  }

  /** Vendor writes: which register of which chip gets which value, and the board's identification. Each is
      acknowledged. */
  lemma VendorWrites(t: Tables, d: Device, s: Setup, e: Env)
    requires WellFormed(t) && d.halt == Running && d.handler == Vendor && s.bmRequestType == 0x40
    ensures s.bRequest == 0x20 ==> Answers(t, d, s, e, [RegWrite(Nrf, s.wIndex % 256, s.wValue % 256)], [])
    ensures s.bRequest == 0x22 ==> Answers(t, d, s, e, [RegWrite(Eth, s.wIndex % 256, s.wValue)], [])
    ensures s.bRequest == 0x41 ==> Answers(t, d, s, e, [SetId(s.wValue % 256)], [])
    ensures s.bRequest == 0x02 ==> Step(t, d, SetupEvent(s, e)).halt == CpuReset
  {
    hide Find, Descriptor, WellFormed, VendorFromDevice, SpiWriteSetup, LoaderSetup, DfuCommon;
    SameEps(d, []);
  }

  /** Which descriptor a value asks for. */
  lemma DescriptorsByValue(t: Tables, d: Device, s: Setup, e: Env)
    requires WellFormed(t) && d.halt == Running && s.bmRequestType == 0x80 && s.bRequest == GET_DESCRIPTOR
    ensures s.wValue / 256 == 1 ==> Answers(t, d, s, e, [], Usb.Cut(t.device, s.wLength))
    ensures s.wValue == 0x0200 ==> Answers(t, d, s, e, [], Usb.Cut(t.config, s.wLength))
    ensures s.wValue / 256 == 3 && s.wValue % 256 < |t.strings| ==>
      Answers(t, d, s, e, [], Usb.Cut(t.strings[s.wValue % 256], s.wLength))
    ensures s.wValue / 256 == 0x21 && d.handler != Vendor ==>
      Answers(t, d, s, e, [], Usb.Cut([9, 0x21, 0xf, 0xff, 0xff, 8, 0, 1, 1], s.wLength))
    ensures (&& s.wValue / 256 != 1 && s.wValue != 0x0200 && !(s.wValue / 256 == 3 && s.wValue % 256 < |t.strings|)
             && !(s.wValue / 256 == 0x21 && d.handler != Vendor)) ==>
      Refused(d, Step(t, d, SetupEvent(s, e)))
  {
    hide Find, WellFormed, UserSetup, SetInterface;
    var r := Descriptor(t, d.handler, s.wValue / 256, s.wValue % 256);
    if r.Some? {
      SameEps(d, Usb.Cut(r.value, s.wLength));
    }
    assert d.effects + [] == d.effects;
  }

  // ----- Interfaces, detach and reset -----

  /** SET_INTERFACE installs the vendor handler for the first descriptor of the chain and the DFU handler, in
      its first state, for any other; it is acknowledged, or refused if there is no such descriptor. */
  lemma SelectsExactly(t: Tables, d: Device, index: uint16, value: uint16, e: Env)
    requires WellFormed(t) && t.config == CONFIG && d.halt == Running && d.handler != Loader
    ensures var c := Step(t, d, SetupEvent(Setup(0x01, SET_INTERFACE, value, index, 0), e));
      if index == 0 && value == 0 then c == d.(eps := d.eps[0 := Tx([], Nothing)], handler := Vendor)
      else if (index == 1 && (value == 0 || value == 2)) || (index == 0x82 && value == 2) then
        c == d.(eps := d.eps[0 := Tx([], Nothing)], handler := Runtime, dfu := AppIdle)
      else c == d.(eps := d.eps[0 := Idle], effects := d.effects + [Stalled(0)])
  {
    hide Find, Descriptor, Chain, UserSetup;
    WhatIsSelected(index, value);
    SameEps(d, []);
  }

  /** A bus reset restarts the chip exactly after a detach outside the boot loader; else it makes all
      endpoints idle and changes nothing more. */
  lemma ResetExactly(t: Tables, d: Device)
    requires WellFormed(t) && d.halt == Running
    ensures Step(t, d, Reset)
         == if d.dfu == AppDetach && d.handler != Loader then d.(halt := CpuReset) else d.(eps := [Idle, Idle, Idle])
  {}

  /** No SETUP and no bus reset. */
  predicate Quiet(events: seq<Event>) {
    forall i :: 0 <= i < |events| ==> !events[i].Reset? && (events[i].Interrupt? ==> events[i].flags.setup.None?)
  }

  lemma QuietStep(t: Tables, d: Device, e: Event)
    requires WellFormed(t) && Possible(e) && !e.Reset? && (e.Interrupt? ==> e.flags.setup.None?) && d.halt == Running
    ensures var c := Step(t, d, e);
      c.halt == Running && c.handler == d.handler && c.dfu == d.dfu && c.status == d.status
  {
    hide ReceiveCallback;
    if e.Interrupt? && e.flags.out.Some? && d.eps[e.n].Rx? {
      CallbackKeeps(d.eps[e.n].callback, d.eps[e.n].got + e.flags.out.value);
    }
  }

  lemma CallbackKeeps(callback: Callback, data: seq<uint8>)
    ensures forall c: Device {:trigger ReceiveCallback(c, callback, data)} ::
      ReceiveCallback(c, callback, data).halt == c.halt && ReceiveCallback(c, callback, data).handler == c.handler
      && ReceiveCallback(c, callback, data).dfu == c.dfu && ReceiveCallback(c, callback, data).status == c.status
      && ReceiveCallback(c, callback, data).eps == c.eps
  {}

  /** Only requests and resets change the handler, the state and status of DFU, and stop the program. */
  lemma {:induction false} QuietRun(t: Tables, d: Device, events: seq<Event>)
    requires WellFormed(t) && IsRun(events) && Quiet(events) && d.halt == Running
    ensures var c := Run(t, d, events);
      c.halt == Running && c.handler == d.handler && c.dfu == d.dfu && c.status == d.status
    decreases |events|
  {
    hide Step, WellFormed;
    if events == [] {
    } else {
      assert Possible(events[0]);
      QuietStep(t, d, events[0]);
      QuietRun(t, Step(t, d, events[0]), events[1..]);
    }
  }

  function Detach(): Setup {
    Setup(0x21, 0, 1000, 1, 0)
  }

  /** The way into the boot loader: the DFU interface selected, a detach, and the bus reset that ends it,
      whatever transfers take place in between. */
  lemma IntoTheLoader(t: Tables, d: Device, e: Env, some: seq<Event>, more: seq<Event>)
    requires WellFormed(t) && t.config == CONFIG && d.halt == Running && d.handler != Loader
    requires IsRun(some) && Quiet(some) && IsRun(more) && Quiet(more)
    ensures var c := Run(t, Step(t, d, SetupEvent(Setup(0x01, SET_INTERFACE, 0, 1, 0), e)), some);
      var b := Step(t, c, SetupEvent(Detach(), e));
      && b == c.(eps := c.eps[0 := Tx([], Nothing)], dfu := AppDetach)
      && Step(t, Run(t, b, more), Reset).halt == CpuReset
  {
    hide Step, Run, WellFormed;
    SelectsExactly(t, d, 1, 0, e);
    var a := Step(t, d, SetupEvent(Setup(0x01, SET_INTERFACE, 0, 1, 0), e));
    QuietRun(t, a, some);
    var c := Run(t, a, some);
    Detached(t, c, e);
    QuietRun(t, Step(t, c, SetupEvent(Detach(), e)), more);
    ResetExactly(t, Run(t, Step(t, c, SetupEvent(Detach(), e)), more));
  }

  lemma Detached(t: Tables, d: Device, e: Env)
    requires WellFormed(t) && d.halt == Running && d.handler == Runtime
    ensures Step(t, d, SetupEvent(Detach(), e)) == d.(eps := d.eps[0 := Tx([], Nothing)], dfu := AppDetach)
  {
    hide Find, Descriptor, SetInterface, VendorSetup, LoaderSetup, DfuCommon;
    SameEps(d, []);
  }

  /** In the boot loader a detach is acknowledged and forgotten. */
  lemma DetachInLoader(t: Tables, d: Device, e: Env)
    requires WellFormed(t) && d.halt == Running && d.handler == Loader
    ensures Step(t, d, SetupEvent(Detach(), e)) == d.(eps := d.eps[0 := Tx([], Nothing)])
  {
    hide Find, Descriptor, SetInterface, VendorSetup, DfuCommon, Dnload, Upload;
    SameEps(d, []);
  }

  /** GETSTATE and GETSTATUS, where DFU requests are answered at all, give the states the numbers of section
      6.1.2 of the DFU 1.1 specification. */
  lemma StatesByNumber(t: Tables, d: Device, e: Env)
    requires WellFormed(t) && d.halt == Running && d.handler != Vendor
    ensures var n: uint8 := match d.dfu
        case AppIdle => 0 case AppDetach => 1 case DfuIdle => 2 case DnloadIdle => 5 case UploadIdle => 9
        case DfuError => 10;
      && Answers(t, d, Setup(0xa1, 5, 0, 0, 1), e, [], [n])
      && Answers(t, d, Setup(0xa1, 3, 0, 0, 6), e, [], [d.status, 100, 0, 0, n, 0])
  {
    hide Find, Descriptor, SetInterface, WellFormed;
    SameEps(d, [d.dfu.Code()]);
    SameEps(d, [d.status, 100, 0, 0, d.dfu.Code(), 0]);
    assert d.effects + [] == d.effects;
  }

  // ----- The end -----

  /** A reset request, and one that reaches past the buffer, end the program at once: of the other flags the
      interrupt finds nothing is done any more. */
  lemma NothingAfterTheEnd(t: Tables, d: Device, s: Setup, f: Flags, e: Env)
    requires WellFormed(t) && d.halt == Running && d.handler == Vendor && f.setup == Some(s)
    requires s.bmRequestType in {ATUSB_TO_DEV, ATUSB_FROM_DEV}
    requires !InBuffer(t, s) || (s.bmRequestType == ATUSB_TO_DEV && s.bRequest == ATUSB_RESET)
    ensures Step(t, d, Interrupt(0, f, e))
         == d.(eps := d.eps[0 := Idle], halt := if InBuffer(t, s) then CpuReset else Overrun)
  {
    hide Find, Descriptor, SetInterface, HandleData, Reach, InBuffer, VendorFromDevice;
    InBufferExactly(t, s);
  }

  /** After power-up the firmware answers vendor requests. */
  lemma VendorFirst(t: Tables, e: Env)
    requires WellFormed(t)
    ensures Answers(t, Initial(false), Setup(0xc0, 0x00, 0, 0, 2), e, [], [0, 1])
  {
    VendorAnswers(t, Initial(false), Setup(0xc0, 0x00, 0, 0, 2), e);
    assert [0, 1][..2] == [0, 1];
  }
}

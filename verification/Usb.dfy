/**
 The control logic of the USB device: request dispatch in firmware/usb/usb.c, the vendor and DFU
 requests of firmware/ep0.c, firmware/usb/dfu.c and firmware/usb/dfu_common.c, the endpoint interrupt
 of firmware/usb/atu2.c and the main loop's transfers. Endpoints hold the transfers of `Endpoint`.
 */
module Usb {
  import opened Machine
  import opened Endpoint

  const NUM_EPS := 3
  const EP0_SIZE := 8
  const EP_SIZES: seq<nat> := [EP0_SIZE, 64, 64]
  const PAYLOAD_SIZE: uint8 := 16

  datatype Setup = Setup(bmRequestType: uint8, bRequest: uint8, wValue: uint16, wIndex: uint16, wLength: uint16)

  /** Which functions the `user_setup` and `user_get_descriptor` pointers name: those of ep0.c for
      interface 0, those for its DFU interface, or those of the boot loader, dfu.c. */
  datatype Handler = Vendor | Runtime | Loader

  datatype DfuState = AppIdle | AppDetach | DfuIdle | DnloadIdle | UploadIdle | DfuError
  {
    function Code(): uint8 {
      match this
      case AppIdle => 0 case AppDetach => 1 case DfuIdle => 2
      case DnloadIdle => 5 case UploadIdle => 9 case DfuError => 10
    }
  }

  const OK: uint8 := 0
  const ERR_ADDRESS: uint8 := 8
  const ERR_UNKNOWN: uint8 := 14

  /** Ways in which the program ends: `panic`, `reset_cpu`, or a request that makes it reach past the end of
      its buffer, after which no variable can be relied on. */
  datatype Halt = Running | Panic | CpuReset | Overrun

  datatype Chip = Nrf | Eth

  /** What the device does, in order. */
  datatype Effect =
    | Sent(n: nat, packet: seq<uint8>)
    | FrameIn(frame: seq<uint8>)
    | SpiWrite(bytes: seq<uint8>)
    | SpiRead(command: seq<uint8>, length: nat)
    | RegWrite(chip: Chip, reg: uint8, val: uint16)
    | RegRead(chip: Chip, reg: uint8)
    | Gpio(port: uint8, out: uint8, dir: uint8, mask: uint8)
    | SetId(id: uint8)
    | FlashStart
    | FlashWrite(ordinal: nat, data: seq<uint8>)
    | FlashEnd
    | Stalled(n: nat)

  /** A block written to flash, with its place among the blocks accepted in the session. */
  datatype Write = Write(ordinal: nat, data: seq<uint8>)

  /** History of a download: how many there were before it, the number of its first block, how many
      blocks have been accepted since `flash_start`, and what has been written. */
  datatype Session = Session(serial: nat, first: uint16, count: nat, writes: seq<Write>)

  /** The constants of a build: descriptors, build number and date. */
  datatype Tables = Tables(device: seq<uint8>, config: seq<uint8>, strings: seq<seq<uint8>>,
                           build: uint16, date: seq<uint8>)

  type Eps = s: seq<Transfer> | |s| == NUM_EPS witness [Idle, Idle, Idle]

  datatype Device = Device(eps: Eps, handler: Handler, dfu: DfuState, status: uint8, nextBlock: uint16,
                           udaddr: uint8, halt: Halt, session: Session, effects: seq<Effect>)

  /** What a handler finds outside this model: bytes read from chips or flash, and the verdict of `gpio` or
      `flash_can_write`. */
  datatype Env = Env(reply: seq<uint8>, ok: bool)

  function Bytes(e: Env, n: nat): (r: seq<uint8>)
    ensures |r| == n
  {
    if |e.reply| >= n then e.reply[..n] else e.reply + Zeros(n - |e.reply|)
  }

  function Cut(s: seq<uint8>, n: nat): (r: seq<uint8>)
    ensures |r| <= n
  {
    if n < |s| then s[..n] else s
  }

  // ----- Starting transfers -----

  /** `usb_io`. */
  function UsbIo(d: Device, n: nat, t: Transfer): Device
    requires n < NUM_EPS
  {
    if d.eps[n] != Idle then d.(halt := Panic) else d.(eps := d.eps[n := t])
  }

  function Send(d: Device, bytes: seq<uint8>): Device {
    UsbIo(d, 0, Tx(bytes, Nothing))
  }

  function Log(d: Device, e: Effect): Device {
    d.(effects := d.effects + [e])
  }

  // ----- Descriptors -----

  /** From offset `p` on, the configuration descriptor is a chain of descriptors that ends at its total
      length. */
  predicate Chain(config: seq<uint8>, p: nat)
    decreases |config| - p
  {
    && |config| > 5 && p <= config[2] == |config|
    && (p == |config| || (config[p] >= 4 && p + config[p] <= |config| && Chain(config, p + config[p])))
  }

  predicate WellFormed(t: Tables) {
    && |t.device| > 0 && t.device[0] == |t.device|
    && 9 <= |t.config| && Chain(t.config, 9)
    && forall i :: 0 <= i < |t.strings| ==> |t.strings[i]| < 0x100
  }

  /** The offsets of the descriptors in the chain. */
  function Offsets(config: seq<uint8>, p: nat): (r: seq<nat>)
    requires Chain(config, p)
    ensures forall i :: 0 <= i < |r| ==> r[i] + 4 <= |config|
    decreases |config| - p
  {
    if p == |config| then [] else [p] + Offsets(config, p + config[p])
  }

  predicate Matches(config: seq<uint8>, p: nat, wIndex: uint16, wValue: uint16)
    requires p + 4 <= |config|
  {
    config[p + 2] == wIndex && config[p + 3] == wValue
  }

  /** The number of the first descriptor in the chain, of whatever type, that has the index and value. */
  function Find(config: seq<uint8>, p: nat, i: nat, wIndex: uint16, wValue: uint16): Option<nat>
    requires Chain(config, p)
    decreases |config| - p
  {
    if p == |config| then None
    else if Matches(config, p, wIndex, wValue) then Some(i)
    else Find(config, p + config[p], i + 1, wIndex, wValue)
  }

  const DT_DEVICE := 1
  const DT_CONFIG := 2
  const DT_STRING := 3
  const DT_FUNCTIONAL := 0x21

  const FUNCTIONAL: seq<uint8> := [9, 0x21, 0xf, 0xff, 0xff, EP0_SIZE, 0, 0x01, 0x01]

  function UserDescriptor(t: Tables, h: Handler, kind: uint8, index: uint8): Option<seq<uint8>> {
    if h != Vendor && kind == DT_FUNCTIONAL then Some(FUNCTIONAL)
    else if kind == DT_STRING && index < |t.strings| then Some(t.strings[index])
    else None
  }

  function Descriptor(t: Tables, h: Handler, kind: uint8, index: uint8): Option<seq<uint8>> {
    if kind == DT_DEVICE then Some(t.device)
    else if kind == DT_CONFIG then if index != 0 then None else Some(t.config)
    else UserDescriptor(t, h, kind, index)
  }

  // ----- Requests -----

  const GET_STATUS := 0x00
  const CLEAR_FEATURE := 0x01
  const SET_FEATURE := 0x03
  const SET_ADDRESS := 0x05
  const GET_DESCRIPTOR := 0x06
  const SET_DESCRIPTOR := 0x07
  const GET_CONFIGURATION := 0x08
  const SET_CONFIGURATION := 0x09
  const GET_INTERFACE := 0x0a
  const SET_INTERFACE := 0x0b
  const SYNCH_FRAME := 0x0c

  function SetAddress(d: Device, s: Setup): Device {
    UsbIo(d.(udaddr := s.wValue % 0x100), 0, Tx([], EnableAddr))
  }

  function SetInterface(t: Tables, d: Device, s: Setup): (Device, bool)
    requires WellFormed(t)
  {
    match Find(t.config, 9, 0, s.wIndex, s.wValue)
    case None => (d, false)
    case Some(nth) =>
      if d.handler == Loader then (d, true)
      else if nth != 0 then (d.(handler := Runtime, dfu := AppIdle), true)
      else (d.(handler := Vendor), true)
  }

  /** `handle_setup`: the device afterwards, and whether the request is accepted. */
  function HandleSetup(t: Tables, d: Device, s: Setup, e: Env): (Device, bool)
    requires WellFormed(t)
  {
    match s.bmRequestType
    case 0x80 =>
      if s.bRequest == GET_STATUS then if s.wLength != 2 then (d, false) else (Send(d, [0, 0]), true)
      else if s.bRequest == GET_DESCRIPTOR then
        (match Descriptor(t, d.handler, s.wValue / 0x100, s.wValue % 0x100)
         case None => (d, false)
         case Some(bytes) => (Send(d, Cut(bytes, s.wLength)), true))
      else if s.bRequest == GET_CONFIGURATION then (Send(d, [0]), true)
      else UserSetup(t, d, s, e)
    case 0x00 =>
      if s.bRequest == CLEAR_FEATURE then (d, true)
      else if s.bRequest == SET_FEATURE || s.bRequest == SET_DESCRIPTOR then (d, false)
      else if s.bRequest == SET_ADDRESS then (SetAddress(d, s), true)
      else if s.bRequest == SET_CONFIGURATION then (d, s.wValue == t.config[5])
      else UserSetup(t, d, s, e)
    case 0x01 =>
      if s.bRequest == CLEAR_FEATURE || s.bRequest == SET_FEATURE then (d, false)
      else if s.bRequest == SET_INTERFACE then SetInterface(t, d, s)
      else UserSetup(t, d, s, e)
    case 0x81 => if s.bRequest == GET_STATUS || s.bRequest == GET_INTERFACE then (d, false) else UserSetup(t, d, s, e)
    case 0x02 => if s.bRequest == CLEAR_FEATURE || s.bRequest == SET_FEATURE then (d, false) else UserSetup(t, d, s, e)
    case 0x82 => if s.bRequest == GET_STATUS || s.bRequest == SYNCH_FRAME then (d, false) else UserSetup(t, d, s, e)
    case _ => UserSetup(t, d, s, e)
  }

  function UserSetup(t: Tables, d: Device, s: Setup, e: Env): (Device, bool) {
    match d.handler
    case Vendor => VendorSetup(t, d, s, e)
    case Runtime =>
      if s.bmRequestType == DFU_TO_DEV && s.bRequest == DFU_DETACH then (d.(dfu := AppDetach), true)
      else DfuCommon(d, s)
    case Loader => LoaderSetup(d, s, e)
  }

  // ----- Vendor requests, firmware/ep0.c -----

  const ATUSB_TO_DEV := 0x40
  const ATUSB_FROM_DEV := 0xc0

  const ATUSB_ID := 0x00
  const ATUSB_BUILD := 0x01
  const ATUSB_RESET := 0x02
  const ATUSB_GPIO := 0x10
  const ATUSB_NRF_WRITE := 0x20
  const ATUSB_NRF_READ := 0x21
  const ATUSB_ETH_WRITE := 0x22
  const ATUSB_ETH_READ := 0x23
  const ATUSB_SPI_WRITE1 := 0x30
  const ATUSB_SPI_WRITE2 := 0x31
  const ATUSB_SPI_READ1 := 0x32
  const ATUSB_SPI_READ2 := 0x33
  const ATUSB_GET_ID := 0x40
  const ATUSB_SET_ID := 0x41

  const ID: seq<uint8> := [0, 1]

  // Where the build date goes in the buffer, after '#', five digits and a space.
  const BUILD_OFFSET := 7

  /** A number without leading zeros, and nothing for 0. */
  function Digits(n: nat): (r: seq<uint8>)
    ensures n < 100_000 ==> |r| <= 5
    ensures n < 10_000 ==> |r| <= 4
    ensures n < 1000 ==> |r| <= 3
    ensures n < 100 ==> |r| <= 2
    ensures n < 10 ==> |r| <= 1
    ensures n == 0 ==> r == []
  {
    if n == 0 then [] else Digits(n / 10) + [48 + n % 10]
  }

  /** The answer to ATUSB_BUILD. */
  function BuildString(t: Tables): seq<uint8> {
    [35] + Digits(t.build) + [32] + t.date
  }

  /** The number of bytes that a write request takes from its own fields. */
  function HeaderSize(s: Setup): nat {
    if s.bRequest == ATUSB_SPI_WRITE1 then 1 else 2
  }

  predicate IsSpiWrite(s: Setup) {
    s.bmRequestType == ATUSB_TO_DEV && (s.bRequest == ATUSB_SPI_WRITE1 || s.bRequest == ATUSB_SPI_WRITE2)
  }

  predicate IsSpiRead(s: Setup) {
    s.bmRequestType == ATUSB_FROM_DEV && (s.bRequest == ATUSB_SPI_READ1 || s.bRequest == ATUSB_SPI_READ2)
  }

  predicate IsBuild(s: Setup) {
    s.bmRequestType == ATUSB_FROM_DEV && s.bRequest == ATUSB_BUILD
  }

  /** How far into the eight bytes of `buf` a vendor request reaches, as the code computes it: sizes of
      write requests in eight bits, lengths of transfers in eight bits, the loop of a read request with
      an eight-bit variable that never meets a larger bound. */
  function Reach(t: Tables, s: Setup): nat {
    if IsSpiWrite(s) then
      if (s.wLength + HeaderSize(s)) % 0x100 > EP0_SIZE then 0 else HeaderSize(s) + s.wLength % 0x100
    else if IsSpiRead(s) then if s.wLength < 0x100 then s.wLength else 0x100
    else if IsBuild(s) then BUILD_OFFSET + |t.date|
    else 3
  }

  /** ATUSB_SPI_WRITE1 and 2: bytes from the request itself, then bytes still to be received. */
  function SpiWriteSetup(d: Device, header: seq<uint8>, wLength: uint16): (Device, bool)
    requires |header| <= 2
  {
    var size := (wLength + |header|) % 0x100;
    if size > EP0_SIZE then (d, false)
    else if wLength != 0 then (UsbIo(d, 0, Rx([], wLength % 0x100, DoBufWrite(header, size))), true)
    else (Log(d, SpiWrite(header)), true)
  }

  function VendorFromDevice(t: Tables, d: Device, s: Setup, e: Env): (Device, bool) {
    var lo, index := s.wValue % 0x100, s.wIndex % 0x100;
    if s.bRequest == ATUSB_ID then if s.wLength > 2 then (d, false) else (Send(d, ID[..s.wLength]), true)
    else if s.bRequest == ATUSB_BUILD then
      if |BuildString(t)| > s.wLength then (d, false) else (Send(d, BuildString(t)), true)
    else if s.bRequest == ATUSB_GPIO then
      if s.wLength < 3 then (d, false)
      else
        var c := Log(d, Gpio(index, lo, s.wValue / 0x100, s.wIndex / 0x100));
        if !e.ok then (c, false) else (Send(c, Bytes(e, 3)), true)
    else if s.bRequest == ATUSB_NRF_READ then (Send(Log(d, RegRead(Nrf, index)), Bytes(e, 1)), true)
    else if s.bRequest == ATUSB_ETH_READ then (Send(Log(d, RegRead(Eth, index)), Bytes(e, 2)), true)
    else if s.bRequest == ATUSB_SPI_READ1 then (Send(Log(d, SpiRead([lo], s.wLength)), Bytes(e, s.wLength)), true)
    else if s.bRequest == ATUSB_SPI_READ2 then
      (Send(Log(d, SpiRead([lo, index], s.wLength)), Bytes(e, s.wLength)), true)
    else if s.bRequest == ATUSB_GET_ID then if s.wLength != 1 then (d, false) else (Send(d, Bytes(e, 1)), true)
    else (d, false)
  }

  function VendorToDevice(d: Device, s: Setup): (Device, bool) {
    var lo, index := s.wValue % 0x100, s.wIndex % 0x100;
    if s.bRequest == ATUSB_RESET then (d.(halt := CpuReset), true)
    else if s.bRequest == ATUSB_NRF_WRITE then (Log(d, RegWrite(Nrf, index, lo)), true)
    else if s.bRequest == ATUSB_ETH_WRITE then (Log(d, RegWrite(Eth, index, s.wValue)), true)
    else if s.bRequest == ATUSB_SPI_WRITE1 then SpiWriteSetup(d, [lo], s.wLength)
    else if s.bRequest == ATUSB_SPI_WRITE2 then SpiWriteSetup(d, [lo, index], s.wLength)
    else if s.bRequest == ATUSB_SET_ID then (Log(d, SetId(lo)), true)
    else (d, false)
  }

  function VendorSetup(t: Tables, d: Device, s: Setup, e: Env): (Device, bool) {
    if Reach(t, s) > EP0_SIZE then (d.(halt := Overrun), true)
    else if s.bmRequestType == ATUSB_FROM_DEV then VendorFromDevice(t, d, s, e)
    else if s.bmRequestType == ATUSB_TO_DEV then VendorToDevice(d, s)
    else (d, false)
  }

  // ----- DFU requests -----

  const DFU_TO_DEV := 0x21
  const DFU_FROM_DEV := 0xa1

  const DFU_DETACH := 0
  const DFU_DNLOAD := 1
  const DFU_UPLOAD := 2
  const DFU_GETSTATUS := 3
  const DFU_CLRSTATUS := 4
  const DFU_GETSTATE := 5
  const DFU_ABORT := 6

  /** `dfu_setup_common`. */
  function DfuCommon(d: Device, s: Setup): (Device, bool) {
    if s.bmRequestType == DFU_FROM_DEV && s.bRequest == DFU_GETSTATUS then
      (Send(d, [d.status, 100, 0, 0, d.dfu.Code(), 0]), true)
    else if s.bmRequestType == DFU_TO_DEV && s.bRequest == DFU_CLRSTATUS then (d.(dfu := DfuIdle, status := OK), true)
    else if s.bmRequestType == DFU_FROM_DEV && s.bRequest == DFU_GETSTATE then (Send(d, [d.dfu.Code()]), true)
    else (d, false)
  }

  function Fail(d: Device): Device {
    d.(dfu := DfuError, status := ERR_UNKNOWN)
  }

  /** A download or upload that begins in dfuIDLE: its block number counts from here. */
  function Begin(d: Device, s: Setup): Device {
    if d.dfu != DfuIdle then d
    else Log(d, FlashStart).(nextBlock := s.wValue, session := Session(d.session.serial + 1, s.wValue, 0, []))
  }

  predicate Retransmitted(d: Device, s: Setup) {
    d.dfu != DfuIdle && s.wValue == (d.nextBlock - 1) % 0x1_0000
  }

  /** `block_receive`. */
  function BlockReceive(d: Device, length: uint16, e: Env): (Device, bool) {
    if !e.ok then (d.(dfu := DfuError, status := ERR_ADDRESS), false)
    else if length > EP0_SIZE then (Fail(d), false)
    else (UsbIo(d, 0, Rx([], length, BlockWrite(d.session.count))), true)
  }

  function Dnload(d: Device, s: Setup, e: Env): (Device, bool) {
    if d.dfu != DfuIdle && d.dfu != DnloadIdle then (d, false)
    else
      var b := Begin(d, s);
      if Retransmitted(b, s) then (b, true)
      else if s.wValue != b.nextBlock then (Fail(b), true)
      else if s.wLength == 0 then (Log(b, FlashEnd).(dfu := DfuIdle), true)
      else AcceptBlock(b, s, e)
  }

  /** A block in sequence: whether it can be received or not, it is the next one's turn. */
  function AcceptBlock(d: Device, s: Setup, e: Env): (Device, bool) {
    var (c, ok) := BlockReceive(d, s.wLength, e);
    (c.(nextBlock := (d.nextBlock + 1) % 0x1_0000, dfu := DnloadIdle,
        session := c.session.(count := c.session.count + 1)), ok)
  }

  /** `block_transmit`. */
  function BlockTransmit(d: Device, length: uint16, e: Env): Device {
    if length > EP0_SIZE then Fail(d)
    else Send(if |e.reply| < length then d.(dfu := DfuIdle) else d, Cut(e.reply, length))
  }

  function Upload(d: Device, s: Setup, e: Env): (Device, bool) {
    if d.dfu != DfuIdle && d.dfu != UploadIdle then (d, false)
    else
      var b := Begin(d, s);
      if Retransmitted(b, s) || s.wValue != b.nextBlock then (Fail(b), true)
      else (BlockTransmit(b, s.wLength, e).(nextBlock := (b.nextBlock + 1) % 0x1_0000, dfu := UploadIdle), true)
  }

  /** `my_setup` of dfu.c. */
  function LoaderSetup(d: Device, s: Setup, e: Env): (Device, bool) {
    if s.bmRequestType == DFU_TO_DEV && s.bRequest == DFU_DETACH then (d, true)
    else if s.bmRequestType == DFU_TO_DEV && s.bRequest == DFU_DNLOAD then Dnload(d, s, e)
    else if s.bmRequestType == DFU_FROM_DEV && s.bRequest == DFU_UPLOAD then Upload(d, s, e)
    else if s.bmRequestType == DFU_TO_DEV && s.bRequest == DFU_ABORT then (d.(dfu := DfuIdle, status := OK), true)
    else DfuCommon(d, s)
  }

  // ----- The endpoint interrupt, firmware/usb/atu2.c -----

  /** `ep_setup`: an accepted request to the device that started no transfer is answered by an empty
      packet. */
  function EpSetup(t: Tables, d: Device, s: Setup, e: Env): (Device, bool)
    requires WellFormed(t)
  {
    var (c, ok) := HandleSetup(t, d, s, e);
    if c.halt == Running && ok && s.bmRequestType < 0x80 && c.eps[0] == Idle then (Send(c, []), true)
    else (c, ok)
  }

  /** The callback of a transfer that has received `data`. */
  function ReceiveCallback(d: Device, callback: Callback, data: seq<uint8>): Device {
    match callback
    case UsbIn => Log(d, FrameIn(data))
    case DoBufWrite(header, size) => Log(d, SpiWrite(Cut(header + data, size)))
    case BlockWrite(k) =>
      Log(d, FlashWrite(k, data)).(session := d.session.(writes := d.session.writes + [Write(k, data)]))
    case _ => d
  }

  /** `ep_rx`. */
  function ReceivePacket(d: Device, n: nat, packet: seq<uint8>): (Device, bool)
    requires n < NUM_EPS && d.eps[n].Rx?
  {
    var x := d.eps[n];
    if !Fits(x, packet) then (d, false)
    else
      var c := d.(eps := d.eps[n := AfterReceive(x, packet)]);
      if c.eps[n] != Idle then (c, true)
      else
        var b := ReceiveCallback(c, x.callback, x.got + packet);
        (if n == 0 then Send(b, []) else b, true)
  }

  /** `ep_tx` and the callback of a finished transmission. */
  function TransmitPacket(d: Device, n: nat): Device
    requires n < NUM_EPS && d.eps[n].Tx?
  {
    var x := d.eps[n];
    var c := Log(d, Sent(n, NextPacket(x.left, EP_SIZES[n]))).(eps := d.eps[n := AfterPacket(x, EP_SIZES[n])]);
    if c.eps[n] == Idle && x.callback == EnableAddr then
      c.(udaddr := if c.udaddr < 0x80 then c.udaddr + 0x80 else c.udaddr)
    else c
  }

  /** An endpoint's transfer is forgotten. */
  function Cancel(d: Device, n: nat): Device
    requires n < NUM_EPS
  {
    d.(eps := d.eps[n := Idle])
  }

  /** And the host is told: `stall`. */
  function Stall(d: Device, n: nat): Device
    requires n < NUM_EPS
  {
    Log(Cancel(d, n), Stalled(n))
  }

  /** The interrupt flags `handle_ep` finds, with the packets behind them. */
  datatype Flags = Flags(setup: Option<Setup>, out: Option<seq<uint8>>, stalled: bool, txini: bool)

  /** The part of `handle_ep` after SETUP. */
  function HandleData(d: Device, n: nat, f: Flags): Device
    requires n < NUM_EPS
  {
    if f.out.Some? && !d.eps[n].Rx? then Stall(d, n)
    else
      var (c, ok) := if f.out.Some? then ReceivePacket(d, n, f.out.value) else (d, true);
      if c.halt != Running then c
      else if !ok then Stall(c, n)
      else
        var b := if f.stalled then Cancel(c, n) else c;
        if f.txini && b.eps[n].Tx? then TransmitPacket(b, n) else b
  }

  function HandleEp(t: Tables, d: Device, n: nat, f: Flags, e: Env): Device
    requires WellFormed(t) && n < NUM_EPS
  {
    match f.setup
    case None => HandleData(d, n, f)
    case Some(s) =>
      var (c, ok) := EpSetup(t, Cancel(d, n), s, e);
      if c.halt != Running then c
      else if !ok then Stall(c, n)
      else HandleData(c, n, f)
  }

  /** The bus reset interrupt. */
  function BusReset(d: Device): Device {
    if d.handler != Loader && d.dfu == AppDetach then d.(halt := CpuReset)
    else d.(eps := [Idle, Idle, Idle])
  }

  // ----- The main loop, firmware/main.c -----

  /** Hands a received frame to an idle IN endpoint. */
  function Offer(d: Device, frame: seq<uint8>): Device {
    if d.eps[2] == Idle then UsbIo(d, 2, Tx(frame, Nothing)) else d
  }

  /** Asks for the next frame on an idle OUT endpoint. */
  function Ask(d: Device): Device {
    if d.eps[1] == Idle then UsbIo(d, 1, Rx([], PAYLOAD_SIZE, UsbIn)) else d
  }

  function Initial(loader: bool): Device {
    Device([Idle, Idle, Idle], if loader then Loader else Vendor, DfuIdle, OK, 0, 0, Running, Session(0, 0, 0, []), [])
  }
}

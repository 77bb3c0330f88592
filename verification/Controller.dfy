/**
 The functions of the USB firmware on its variables and buffers. `State` is what they stand for: the
 bytes of a transfer are where its endpoint's pointers say, those in front of a received block where its
 request has put them.
 */
module Controller {
  import opened Machine
  import opened Endpoint
  import opened Usb
  import opened UsbSafety

  /** Constant data. */
  method Constant(bytes: seq<uint8>) returns (a: array<uint8>)
    ensures fresh(a) && a.Length == |bytes| && a[..] == bytes
  {
    a := new uint8[|bytes|](i requires 0 <= i < |bytes| => bytes[i]);
  }

  class UsbDevice {
    const tables: Tables
    const ep0: EpDescr
    const ep1: EpDescr
    const ep2: EpDescr
    /** `buf` of ep0.c, or of dfu.c. */
    const buf: array<uint8>
    const inbuf: array<uint8>
    const outbuf: array<uint8>
    /** `size` of ep0.c. */
    var size: uint8
    /** `size` of `block_receive` in dfu.c. */
    var blockSize: uint16
    var handler: Handler
    var dfu: DfuState
    var status: uint8
    var nextBlock: uint16
    var udaddr: uint8
    var halt: Halt
    ghost var session: Session
    ghost var effects: seq<Effect>

    /** What the callback of a reception on the control endpoint will find in the buffer. */
    ghost predicate Prepared()
      requires ep0.Valid()
      reads this, ep0, buf
    {
      && ep0.mem == buf
      && match ep0.meaning
         case DoBufWrite(header, n) => ep0.start == |header| && buf[..ep0.start] == header && n == size == ep0.end
         case BlockWrite(_) => ep0.start == 0 && blockSize == ep0.end
         case _ => false
    }

    ghost predicate Valid()
      reads this, ep0, ep1, ep2, buf
    {
      && WellFormed(tables)
      && ep0 != ep1 && ep0 != ep2 && ep1 != ep2 && buf != inbuf && buf != outbuf && inbuf != outbuf
      && buf.Length == EP0_SIZE && inbuf.Length == outbuf.Length == PAYLOAD_SIZE
      && ep0.Valid() && ep1.Valid() && ep2.Valid()
      && ep0.size == EP_SIZES[0] && ep1.size == EP_SIZES[1] && ep2.size == EP_SIZES[2]
      && ep0.mem != inbuf && ep0.mem != outbuf && ep1.mem == inbuf && ep2.mem == outbuf
      && (ep0.state == EpRx ==> Prepared())
      && (ep1.state == EpRx ==> ep1.start == 0 && ep1.end == PAYLOAD_SIZE && ep1.meaning == UsbIn)
      && ep1.state != EpTx && ep2.state != EpRx
    }

    ghost function State(): Device
      requires Valid()
      reads this, ep0, ep1, ep2, buf, ep0.mem, inbuf, outbuf
    {
      Device([ep0.Value(), ep1.Value(), ep2.Value()], handler, dfu, status, nextBlock, udaddr, halt, session, effects)
    }

    /** After `usb_init`, and `ep0_init` or `dfu_init`. */
    constructor (tables: Tables, loader: bool)
      requires WellFormed(tables)
      ensures Valid() && State() == Initial(loader) && this.tables == tables
      ensures fresh(ep0) && fresh(ep1) && fresh(ep2) && fresh(buf) && fresh(inbuf) && fresh(outbuf) && fresh(ep0.mem)
    {
      var b := new uint8[EP0_SIZE];
      var i := new uint8[PAYLOAD_SIZE];
      var o := new uint8[PAYLOAD_SIZE];
      var e0 := new EpDescr(EP_SIZES[0], b);
      var e1 := new EpDescr(EP_SIZES[1], i);
      var e2 := new EpDescr(EP_SIZES[2], o);
      this.tables := tables;
      ep0, ep1, ep2, buf, inbuf, outbuf := e0, e1, e2, b, i, o;
      size, blockSize := 0, 0;
      handler := if loader then Loader else Vendor;
      dfu, status, nextBlock, udaddr, halt := DfuIdle, OK, 0, 0, Running;
      session, effects := Session(0, 0, 0, []), [];
    }

    // ----- Transfers on the control endpoint -----

    method SendConstant(bytes: seq<uint8>)
      requires Valid() && ep0.state == EpIdle && |bytes| < 0x100
      modifies ep0
      ensures Valid() && State() == Send(old(State()), bytes)
    {
      hide WellFormed, EpDescr.Value;
      ep0.ValueFollowsState();
      var a := Constant(bytes);
      var panic := ep0.Io(EpTx, a, 0, |bytes|, NoRoutine, Nothing);
      assert !panic;
      assert a[0..|bytes|] == bytes;
      assert State().eps == old(State()).eps[0 := Tx(bytes, Nothing)];
    }

    /** Sends part of the buffer. */
    method SendBuffer(off: nat, n: uint8)
      requires Valid() && ep0.state == EpIdle && off + n <= EP0_SIZE
      modifies ep0
      ensures Valid() && State() == Send(old(State()), buf[off..off + n])
    {
      var panic := ep0.Io(EpTx, buf, off, n, NoRoutine, Nothing);
      assert !panic;
      assert State().eps == old(State()).eps[0 := Tx(buf[off..off + n], Nothing)];
    }

    ghost method Record(e: Effect)
      requires Valid()
      modifies this`effects
      ensures Valid() && State() == Log(old(State()), e)
    {
      effects := effects + [e];
    }

    // ----- Standard requests -----

    /** `get_descriptor`. */
    method GetDescriptor(kind: uint8, index: uint8, length: uint16) returns (ok: bool)
      requires Valid() && ep0.state == EpIdle
      modifies ep0
      ensures Valid()
      ensures var r := Descriptor(tables, old(State()).handler, kind, index);
        && ok == r.Some?
        && State() == if r.Some? then Send(old(State()), Usb.Cut(r.value, length)) else old(State())
    {
      hide EpDescr.Value;
      hide Send, Find, Chain;
      var reply, n;
      if kind == DT_DEVICE {
        reply := tables.device;
        n := reply[0];
      } else if kind == DT_CONFIG {
        if index != 0 {
          return false;
        }
        reply := tables.config;
        n := reply[2];
        ConfigLength(tables);
      } else {
        var r := UserDescriptor(tables, handler, kind, index);
        if r.None? {
          return false;
        }
        reply := r.value;
        n := |reply|;
      }
      if length < n {
        n := length;
      }
      assert reply[..n] == Usb.Cut(reply, length);
      SendConstant(reply[..n]);
      ok := true;
    }

    /** The walk along the configuration descriptor for SET_INTERFACE. */
    method SelectInterface(s: Setup) returns (ok: bool)
      requires Valid()
      modifies this`handler, this`dfu
      ensures Valid() && (State(), ok) == SetInterface(tables, old(State()), s)
    {
      hide EpDescr.Value;
      var config := tables.config;
      var i, p := 0, 9;
      while p != config[2]
        invariant p <= |config| && Chain(config, p)
        invariant Find(config, 9, 0, s.wIndex, s.wValue) == Find(config, p, i, s.wIndex, s.wValue)
        invariant handler == old(handler) && dfu == old(dfu)
        decreases |config| - p
      {
        if config[p + 2] == s.wIndex && config[p + 3] == s.wValue {
          if handler != Loader {
            // `my_set_interface` of ep0.c.
            if i != 0 {
              handler := Runtime;
              dfu := AppIdle;
            } else {
              handler := Vendor;
            }
          }
          return true;
        }
        i := i + 1;
        p := p + config[p];
      }
      ok := false;
    }

    /** `set_addr`. */
    method SetAddr(s: Setup)
      requires Valid() && ep0.state == EpIdle
      modifies this`udaddr, ep0
      ensures Valid() && State() == SetAddress(old(State()), s)
    {
      udaddr := s.wValue % 0x100;
      var a := Constant([]);
      var panic := ep0.Io(EpTx, a, 0, 0, EnableAddrRoutine, EnableAddr);
      assert !panic;
      assert State().eps == old(State()).eps[0 := Tx([], EnableAddr)];
    }

    /** `handle_setup`. */
    method DispatchSetup(s: Setup, e: Env) returns (ok: bool)
      requires Valid() && ep0.state == EpIdle
      modifies this, ep0, buf
      ensures Valid() && (State(), ok) == HandleSetup(tables, old(State()), s, e)
    {
      hide EpDescr.Value;
      hide Send, SetAddress, SetInterface, UserSetup, Descriptor, Find, Chain, WellFormed;
      ok := true;
      match (s.bmRequestType, s.bRequest) {
        case (0x80, 0x00) =>
          if s.wLength != 2 { return false; }
          SendConstant([0, 0]);
        case (0x00, 0x01) =>
        case (0x00, 0x03) => return false;
        case (0x00, 0x05) => SetAddr(s);
        case (0x80, 0x06) => ok := GetDescriptor(s.wValue / 0x100, s.wValue % 0x100, s.wLength);
        case (0x00, 0x07) => return false;
        case (0x80, 0x08) => SendConstant([0]);
        case (0x00, 0x09) =>
          ConfigLength(tables);
          ok := s.wValue == tables.config[5];
        case (0x81, 0x00) => return false;
        case (0x01, 0x01) => return false;
        case (0x01, 0x03) => return false;
        case (0x81, 0x0a) => return false;
        case (0x01, 0x0b) => ok := SelectInterface(s);
        case (0x82, 0x00) => return false;
        case (0x02, 0x01) => return false;
        case (0x02, 0x03) => return false;
        case (0x82, 0x0c) => return false;
        case _ => ok := DispatchUser(s, e);
      }
    }

    method DispatchUser(s: Setup, e: Env) returns (ok: bool)
      requires Valid() && ep0.state == EpIdle
      modifies this, ep0, buf
      ensures Valid() && (State(), ok) == UserSetup(tables, old(State()), s, e)
    {
      hide EpDescr.Value;
      hide VendorSetup, DfuCommon, LoaderSetup, WellFormed;
      match handler {
        case Vendor => ok := MySetup(s, e);
        case Runtime =>
          if s.bmRequestType == DFU_TO_DEV && s.bRequest == DFU_DETACH {
            dfu := AppDetach;
            ok := true;
          } else {
            ok := DfuSetupCommon(s);
          }
        case Loader => ok := LoaderMySetup(s, e);
      }
    }

    // ----- Vendor requests -----

    /** `do_buf_write`: the bytes of the buffer go to the chip one by one. */
    method WriteOut()
      requires Valid() && size <= EP0_SIZE
      modifies this`effects
      ensures Valid() && State() == Log(old(State()), SpiWrite(buf[..size]))
    {
      ghost var sent: seq<uint8> := [];
      var i := 0;
      while i != size
        invariant i <= size && sent == buf[..i]
      {
        sent := sent + [buf[i]];
        i := i + 1;
      }
      Record(SpiWrite(sent));
    }

    /** Starts the reception of the rest of a write request behind its `h` stored bytes. */
    method AwaitBytes(h: nat, n: uint8, ghost header: seq<uint8>)
      requires Valid() && ep0.state == EpIdle && h + n == size <= EP0_SIZE && header == buf[..h]
      modifies ep0
      ensures Valid() && State() == UsbIo(old(State()), 0, Rx([], n, DoBufWrite(header, size)))
    {
      hide WellFormed;
      var panic := ep0.Io(EpRx, buf, h, n, DoBufWriteRoutine, DoBufWrite(header, size));
      assert !panic;
      assert State().eps == old(State()).eps[0 := Rx([], n, DoBufWrite(header, size))];
    }

    /** ATUSB_SPI_WRITE1 and 2. */
    method SpiWriteRequest(s: Setup) returns (ok: bool)
      requires Valid() && ep0.state == EpIdle && IsSpiWrite(s) && Reach(tables, s) <= EP0_SIZE
      modifies this, ep0, buf
      ensures Valid()
      ensures var header := if HeaderSize(s) == 1 then [s.wValue % 0x100] else [s.wValue % 0x100, s.wIndex % 0x100];
        (State(), ok) == SpiWriteSetup(old(State()), header, s.wLength)
    {
      hide WellFormed, EpDescr.Value;
      IdleValue(ep0);
      var h := HeaderSize(s);
      ghost var header := if h == 1 then [s.wValue % 0x100] else [s.wValue % 0x100, s.wIndex % 0x100];
      size := (s.wLength + h) % 0x100;
      if size > EP0_SIZE {
        return false;
      }
      WrappedSize(s.wLength, h);
      buf[0] := s.wValue % 0x100;
      if h == 2 {
        buf[1] := s.wIndex % 0x100;
      }
      assert buf[..h] == header;
      IdleValue(ep0);
      if s.wLength != 0 {
        AwaitBytes(h, s.wLength % 0x100, header);
      } else {
        WriteOut();
      }
      ok := true;
    }

    /** The loop over the digits of the build number, from right to left. */
    method FormatNumber() returns (i: nat)
      requires Valid() && ep0.state == EpIdle
      modifies buf
      ensures Valid() && State() == old(State())
      ensures i <= BUILD_OFFSET - 2 && buf[i + 1..BUILD_OFFSET - 1] == Digits(tables.build)
    {
      hide WellFormed, EpDescr.Value;
      IdleValue(ep0);
      var tmp := tables.build;
      i := BUILD_OFFSET - 2;
      while tmp != 0
        invariant |Digits(tmp)| <= i <= BUILD_OFFSET - 2
        invariant Digits(tables.build) == Digits(tmp) + buf[i + 1..BUILD_OFFSET - 1]
        decreases tmp
      {
        ghost var later := buf[i + 1..BUILD_OFFSET - 1];
        buf[i] := tmp % 10 + 48;
        assert buf[i..BUILD_OFFSET - 1] == [48 + tmp % 10] + later;
        Assoc(Digits(tmp / 10), [48 + tmp % 10], later);
        tmp := tmp / 10;
        i := i - 1;
      }
      IdleValue(ep0);
    }

    /** ATUSB_BUILD: number and date, formatted in the buffer. */
    method FormatBuild() returns (i: nat)
      requires Valid() && ep0.state == EpIdle && |tables.date| <= 1
      modifies this`size, buf
      ensures Valid() && State() == old(State())
      ensures size == |BuildString(tables)| && i + size <= EP0_SIZE && buf[i..i + size] == BuildString(tables)
    {
      hide WellFormed, EpDescr.Value, Digits, Splice;
      IdleValue(ep0);
      i := FormatNumber();
      ghost var digits := buf[i + 1..BUILD_OFFSET - 1];
      buf[i] := 35;
      buf[BUILD_OFFSET - 1] := 32;
      assert buf[i..BUILD_OFFSET] == [35] + digits + [32];
      MemCpy(buf, BUILD_OFFSET, tables.date);
      size := |tables.date| + BUILD_OFFSET - i;
      assert buf[i..i + size] == [35] + digits + [32] + tables.date;
      IdleValue(ep0);
    }

    /** `my_setup` of ep0.c. */
    method MySetup(s: Setup, e: Env) returns (ok: bool)
      requires Valid() && ep0.state == EpIdle
      modifies this, ep0, buf
      ensures Valid() && (State(), ok) == VendorSetup(tables, old(State()), s, e)
    {
      hide EpDescr.Value;
      hide Send, SpiWriteSetup, Log, BuildString, WellFormed, Bytes, Zeros, Prepared;
      ok := true;
      if Reach(tables, s) > EP0_SIZE {
        // Nothing is modelled of a request that reaches past the end of the buffer.
        halt := Overrun;
        return;
      }
      var lo, index := s.wValue % 0x100, s.wIndex % 0x100;
      match (s.bmRequestType, s.bRequest) {
        case (0xc0, 0x00) =>
          if s.wLength > 2 { return false; }
          SendConstant(ID[..s.wLength]);
        case (0xc0, 0x01) =>
          var i := FormatBuild();
          if size > s.wLength { return false; }
          SendBuffer(i, size);
        case (0x40, 0x02) => halt := CpuReset;
        case (0xc0, 0x10) =>
          if s.wLength < 3 { return false; }
          Record(Gpio(index, lo, s.wValue / 0x100, s.wIndex / 0x100));
          if !e.ok { return false; }
          Reply(Bytes(e, 3));
        case (0x40, 0x20) => Record(RegWrite(Nrf, index, lo));
        case (0xc0, 0x21) =>
          Record(RegRead(Nrf, index));
          Reply(Bytes(e, 1));
        case (0x40, 0x22) => Record(RegWrite(Eth, index, s.wValue));
        case (0xc0, 0x23) =>
          Record(RegRead(Eth, index));
          Reply(Bytes(e, 2));
        case (0x40, 0x30) => ok := SpiWriteRequest(s);
        case (0x40, 0x31) => ok := SpiWriteRequest(s);
        case (0xc0, 0x32) =>
          Record(SpiRead([lo], s.wLength));
          Reply(Bytes(e, s.wLength));
        case (0xc0, 0x33) =>
          Record(SpiRead([lo, index], s.wLength));
          Reply(Bytes(e, s.wLength));
        case (0xc0, 0x40) =>
          if s.wLength != 1 { return false; }
          Reply(Bytes(e, 1));
        case (0x40, 0x41) => Record(SetId(lo));
        case _ => ok := false;
      }
    }

    /** Bytes read from a chip or from flash are stored in the buffer and sent from there. */
    method Reply(bytes: seq<uint8>)
      requires Valid() && ep0.state == EpIdle && |bytes| <= EP0_SIZE
      modifies ep0, buf
      ensures Valid() && State() == Send(old(State()), bytes)
    {
      hide Send, WellFormed;
      MemCpy(buf, 0, bytes);
      assert State() == old(State());
      assert buf[0..0 + |bytes|] == buf[..][0..|bytes|] == bytes;
      SendBuffer(0, |bytes|);
    }

    // ----- DFU requests -----

    method DfuSetupCommon(s: Setup) returns (ok: bool)
      requires Valid() && ep0.state == EpIdle
      modifies this, ep0
      ensures Valid() && (State(), ok) == DfuCommon(old(State()), s)
    {
      hide EpDescr.Value;
      hide Send, WellFormed;
      ok := true;
      match (s.bmRequestType, s.bRequest) {
        case (0xa1, 3) => SendConstant([status, 100, 0, 0, dfu.Code(), 0]);
        case (0x21, 4) => dfu, status := DfuIdle, OK;
        case (0xa1, 5) => SendConstant([dfu.Code()]);
        case _ => ok := false;
      }
    }

    /** `block_receive`. */
    method ReceiveBlock(length: uint16, e: Env) returns (ok: bool)
      requires Valid() && ep0.state == EpIdle
      modifies this, ep0
      ensures Valid() && (State(), ok) == BlockReceive(old(State()), length, e)
    {
      hide WellFormed;
      if !e.ok {
        dfu, status := DfuError, ERR_ADDRESS;
        return false;
      }
      if length > EP0_SIZE {
        dfu, status := DfuError, ERR_UNKNOWN;
        return false;
      }
      blockSize := length;
      var panic := ep0.Io(EpRx, buf, 0, length, BlockWriteRoutine, BlockWrite(session.count));
      assert !panic;
      assert State().eps == old(State()).eps[0 := Rx([], length, BlockWrite(session.count))];
      ok := true;
    }

    /** `block_transmit`. */
    method TransmitBlock(length: uint16, e: Env)
      requires Valid() && ep0.state == EpIdle
      modifies this, ep0, buf
      ensures Valid() && State() == BlockTransmit(old(State()), length, e)
    {
      hide EpDescr.Value;
      hide Send, WellFormed;
      if length > EP0_SIZE {
        dfu, status := DfuError, ERR_UNKNOWN;
        return;
      }
      var got := Usb.Cut(e.reply, length);
      if |got| < length {
        dfu := DfuIdle;
      }
      Reply(got);
    }

    method BeginIfIdle(s: Setup)
      requires Valid()
      modifies this`nextBlock, this`session, this`effects
      ensures Valid() && State() == Begin(old(State()), s)
    {
      hide EpDescr.Value, WellFormed;
      if dfu == DfuIdle {
        nextBlock := s.wValue;
        Record(FlashStart);
        session := Session(session.serial + 1, s.wValue, 0, []);
      }
    }

    method DnloadRequest(s: Setup, e: Env) returns (ok: bool)
      requires Valid() && ep0.state == EpIdle
      modifies this, ep0
      ensures Valid() && (State(), ok) == Dnload(old(State()), s, e)
    {
      hide EpDescr.Value;
      hide AcceptBlock, WellFormed;
      if dfu != DfuIdle && dfu != DnloadIdle {
        return false;
      }
      BeginIfIdle(s);
      if dfu != DfuIdle && s.wValue == (nextBlock - 1) % 0x1_0000 {
        return true;
      }
      if s.wValue != nextBlock {
        dfu, status := DfuError, ERR_UNKNOWN;
        return true;
      }
      if s.wLength == 0 {
        Record(FlashEnd);
        dfu := DfuIdle;
        return true;
      }
      ok := NextBlock(s, e);
    }

    method NextBlock(s: Setup, e: Env) returns (ok: bool)
      requires Valid() && ep0.state == EpIdle
      modifies this, ep0
      ensures Valid() && (State(), ok) == AcceptBlock(old(State()), s, e)
    {
      hide EpDescr.Value;
      hide BlockReceive, WellFormed;
      var next := (nextBlock + 1) % 0x1_0000;
      ok := ReceiveBlock(s.wLength, e);
      nextBlock := next;
      dfu := DnloadIdle;
      session := session.(count := session.count + 1);
    }

    method UploadRequest(s: Setup, e: Env) returns (ok: bool)
      requires Valid() && ep0.state == EpIdle
      modifies this, ep0, buf
      ensures Valid() && (State(), ok) == Upload(old(State()), s, e)
    {
      hide EpDescr.Value;
      hide BlockTransmit, WellFormed;
      if dfu != DfuIdle && dfu != UploadIdle {
        return false;
      }
      BeginIfIdle(s);
      if (dfu != DfuIdle && s.wValue == (nextBlock - 1) % 0x1_0000) || s.wValue != nextBlock {
        dfu, status := DfuError, ERR_UNKNOWN;
        return true;
      }
      var next := (nextBlock + 1) % 0x1_0000;
      TransmitBlock(s.wLength, e);
      nextBlock := next;
      dfu := UploadIdle;
      ok := true;
    }

    /** `my_setup` of dfu.c. */
    method LoaderMySetup(s: Setup, e: Env) returns (ok: bool)
      requires Valid() && ep0.state == EpIdle
      modifies this, ep0, buf
      ensures Valid() && (State(), ok) == LoaderSetup(old(State()), s, e)
    {
      hide EpDescr.Value;
      hide Dnload, Upload, DfuCommon, WellFormed;
      match (s.bmRequestType, s.bRequest) {
        case (0x21, 0) => ok := true;
        case (0x21, 1) => ok := DnloadRequest(s, e);
        case (0xa1, 2) => ok := UploadRequest(s, e);
        case (0x21, 6) =>
          dfu, status := DfuIdle, OK;
          ok := true;
        case _ => ok := DfuSetupCommon(s);
      }
    }

    // ----- The endpoint interrupt -----

    /** `ep_setup`. */
    method EpSetup(s: Setup, e: Env) returns (ok: bool)
      requires Valid() && ep0.state == EpIdle
      modifies this, ep0, buf
      ensures Valid() && (State(), ok) == Usb.EpSetup(tables, old(State()), s, e)
    {
      hide EpDescr.Value;
      hide HandleSetup, Send, WellFormed;
      ok := DispatchSetup(s, e);
      if halt != Running || !ok {
        return;
      }
      ep0.ValueFollowsState();
      if s.bmRequestType < 0x80 && ep0.state == EpIdle {
        SendConstant([]);
      }
    }

    /** The callbacks of the control endpoint, on what the buffer holds. */
    method CallBack(ghost data: seq<uint8>)
      requires Valid() && ep0.state == EpIdle && Prepared() && buf[ep0.start..ep0.end] == data
      modifies this
      ensures Valid() && State() == ReceiveCallback(old(State()), ep0.meaning, data)
    {
      hide WellFormed;
      match ep0.callback {
        case DoBufWriteRoutine =>
          assert buf[..size] == ep0.meaning.header + data;
          WriteOut();
        case BlockWriteRoutine =>
          ghost var written := buf[..blockSize];
          assert written == data;
          Record(FlashWrite(ep0.meaning.ordinal, written));
          session := session.(writes := session.writes + [Write(ep0.meaning.ordinal, written)]);
        case _ =>
      }
    }

    /** `ep_rx` on the control endpoint. */
    method ReceiveControl(packet: seq<uint8>) returns (ok: bool)
      requires Valid() && ep0.state == EpRx
      modifies this, ep0, buf
      ensures Valid() && (State(), ok) == ReceivePacket(old(State()), 0, packet)
      ensures ep0.state == EpRx ==> old(State()).eps[0].Rx?
    {
      hide Send, ReceiveCallback, WellFormed, Splice;
      ghost var x := ep0.Value();
      ok := ep0.StorePacket(packet);
      assert buf[..ep0.start] == old(buf[..ep0.start]);
      assert State().eps == old(State()).eps[0 := ep0.Value()];
      if ok && ep0.state == EpIdle {
        CallBack(x.got + packet);
        SendConstant([]);
      }
    }

    /** `ep_rx` and `usb_in` on the OUT endpoint. */
    method ReceiveData(packet: seq<uint8>) returns (ok: bool)
      requires Valid() && ep1.state == EpRx
      modifies this`effects, ep1, inbuf
      ensures Valid() && (State(), ok) == ReceivePacket(old(State()), 1, packet)
    {
      hide WellFormed, Splice;
      ok := ep1.StorePacket(packet);
      assert State().eps == old(State()).eps[1 := ep1.Value()];
      if ok && ep1.state == EpIdle {
        Record(FrameIn(inbuf[..PAYLOAD_SIZE]));
      }
    }

    /** `ep_tx`. */
    method SendNext(ep: EpDescr, ghost n: nat) returns (packet: seq<uint8>)
      requires Valid() && ((ep == ep0 && n == 0) || (ep == ep2 && n == 2)) && ep.state == EpTx
      modifies ep
      ensures Valid() && ep.meaning == old(ep.meaning)
      ensures var x := old(State()).eps[n];
        && x == old(ep.Value()) && packet == NextPacket(x.left, EP_SIZES[n])
        && State() == old(State()).(eps := old(State()).eps[n := AfterPacket(x, EP_SIZES[n])])
        && ep.Value() == AfterPacket(x, EP_SIZES[n])
    {
      hide WellFormed, NextPacket;
      packet := ep.SendPacket();
      assert State().eps == old(State()).eps[n := ep.Value()];
    }

    /** A packet is sent; after the last one the callback is called. */
    method Transmit(ep: EpDescr, ghost n: nat)
      requires Valid() && ((ep == ep0 && n == 0) || (ep == ep2 && n == 2)) && ep.state == EpTx
      modifies this`effects, this`udaddr, ep
      ensures Valid() && State() == TransmitPacket(old(State()), n)
    {
      hide WellFormed, EpDescr.Value, NextPacket, AfterPacket;
      ep.ValueFollowsState();
      ghost var x := ep.Value();
      var packet := SendNext(ep, n);
      ep.ValueFollowsState();
      Record(Sent(n, packet));
      if ep.state == EpIdle && ep.callback == EnableAddrRoutine && udaddr < 0x80 {
        udaddr := udaddr + 0x80;
      }
    }

    function Ep(n: nat): EpDescr
      requires n < NUM_EPS
    {
      if n == 0 then ep0 else if n == 1 then ep1 else ep2
    }

    method Cancel(n: nat)
      requires Valid() && n < NUM_EPS
      modifies Ep(n)
      ensures Valid() && State() == Usb.Cancel(old(State()), n) && Ep(n).state == EpIdle
    {
      hide WellFormed;
      Ep(n).state := EpIdle;
      assert State().eps == old(State()).eps[n := Idle];
    }

    /** `stall`. */
    method StallEp(n: nat)
      requires Valid() && n < NUM_EPS
      modifies this`effects, Ep(n)
      ensures Valid() && State() == Usb.Stall(old(State()), n)
    {
      hide WellFormed, EpDescr.Value;
      Cancel(n);
      Record(Stalled(n));
    }

    /** `handle_ep`: SETUP is enabled on the control endpoint only. */
    method Interrupt(n: nat, f: Flags, e: Env)
      requires Valid() && n < NUM_EPS && halt == Running && (f.setup.Some? ==> n == 0)
      modifies this, ep0, ep1, ep2, buf, inbuf
      ensures Valid() && State() == HandleEp(tables, old(State()), n, f, e)
    {
      hide EpDescr.Value;
      hide Usb.EpSetup, HandleData, WellFormed;
      if f.setup.Some? {
        Cancel(0);
        var ok := EpSetup(f.setup.value, e);
        if halt != Running {
          return;
        }
        if !ok {
          StallEp(0);
          return;
        }
      }
      InterruptData(n, f);
    }

    method InterruptData(n: nat, f: Flags)
      requires Valid() && n < NUM_EPS && halt == Running
      modifies this, ep0, ep1, ep2, buf, inbuf
      ensures Valid() && State() == HandleData(old(State()), n, f)
    {
      hide EpDescr.Value;
      hide ReceivePacket, TransmitPacket, WellFormed;
      Ep(n).ValueFollowsState();
      if f.out.Some? {
        if Ep(n).state != EpRx {
          StallEp(n);
          return;
        }
        var ok;
        if n == 0 {
          ok := ReceiveControl(f.out.value);
        } else {
          ok := ReceiveData(f.out.value);
        }
        if halt != Running {
          return;
        }
        if !ok {
          StallEp(n);
          return;
        }
      }
      if f.stalled {
        Cancel(n);
      }
      Ep(n).ValueFollowsState();
      if f.txini && Ep(n).state == EpTx {
        Transmit(Ep(n), n);
      }
    }

    /** The bus reset interrupt. */
    method BusReset()
      requires Valid() && halt == Running
      modifies this, ep0, ep1, ep2
      ensures Valid() && State() == Usb.BusReset(old(State()))
    {
      hide WellFormed;
      if handler != Loader && dfu == AppDetach {
        halt := CpuReset;
        return;
      }
      Cancel(0);
      Cancel(1);
      Cancel(2);
    }

    // ----- The main loop -----

    /** Hands a received frame to an idle IN endpoint. */
    method OfferFrame(frame: seq<uint8>)
      requires Valid() && |frame| == PAYLOAD_SIZE
      modifies ep2, outbuf
      ensures Valid() && State() == Offer(old(State()), frame)
    {
      hide WellFormed, Splice, EpDescr.Value;
      ep2.ValueFollowsState();
      if ep2.state == EpIdle {
        MemCpy(outbuf, 0, frame);
        assert outbuf[0..0 + PAYLOAD_SIZE] == outbuf[..] == frame;
        IdleValue(ep2);
        var panic := ep2.Io(EpTx, outbuf, 0, PAYLOAD_SIZE, NoRoutine, Nothing);
        assert !panic;
        assert ep0.Value() == old(ep0.Value()) && ep1.Value() == old(ep1.Value());
        assert State().eps == old(State()).eps[2 := Tx(frame, Nothing)];
      }
    }

    /** Asks for the next frame on an idle OUT endpoint. */
    method AskForFrame()
      requires Valid()
      modifies ep1
      ensures Valid() && State() == Ask(old(State()))
    {
      hide WellFormed, EpDescr.Value;
      ep1.ValueFollowsState();
      if ep1.state == EpIdle {
        var panic := ep1.Io(EpRx, inbuf, 0, PAYLOAD_SIZE, UsbInRoutine, UsbIn);
        assert !panic;
        assert State().eps == old(State()).eps[1 := Rx([], PAYLOAD_SIZE, UsbIn)];
      }
    }

    // ----- Whole runs -----

    /** The main loop hands over whole frames. */
    static predicate WholeFrames(events: seq<Event>) {
      forall i :: 0 <= i < |events| && events[i].OfferFrame? ==> |events[i].frame| == PAYLOAD_SIZE
    }

    /** Interrupts and main-loop steps in any order: what the lemmas say of runs holds of the variables and
        buffers. */
    method Execute(events: seq<Event>)
      requires Valid() && IsRun(events) && WholeFrames(events)
      modifies this, ep0, ep1, ep2, buf, inbuf, outbuf
      ensures Valid() && State() == Run(tables, old(State()), events)
    {
      hide WellFormed, Step;
      ghost var d := State();
      var i := 0;
      while i < |events|
        invariant i <= |events| && Valid()
        invariant IsRun(events[i..]) && Run(tables, State(), events[i..]) == Run(tables, d, events)
      {
        assert Possible(events[i..][0]);
        assert events[i..][1..] == events[i + 1..];
        ExecuteOne(events[i]);
        i := i + 1;
      }
    }

    method ExecuteOne(e: Event)
      requires Valid() && Possible(e) && (e.OfferFrame? ==> |e.frame| == PAYLOAD_SIZE)
      modifies this, ep0, ep1, ep2, buf, inbuf, outbuf
      ensures Valid() && State() == Step(tables, old(State()), e)
    {
      hide EpDescr.Value;
      hide WellFormed, HandleEp, Usb.BusReset, Offer, Ask;
      if halt != Running {
        return;
      }
      match e {
        case Interrupt(n, f, env) => Interrupt(n, f, env);
        case Reset => BusReset();
        case OfferFrame(frame) => OfferFrame(frame);
        case AskForFrame => AskForFrame();
      }
    }
  }

  /** Stores to memory do not change what an idle endpoint stands for. */
  lemma IdleValue(ep: EpDescr)
    requires ep.Valid() && ep.state == EpIdle
    ensures ep.Value() == Idle
  {}

  lemma ConfigLength(t: Tables)
    requires WellFormed(t)
    ensures |t.config| > 5 && t.config[2] == |t.config|
  {}
}

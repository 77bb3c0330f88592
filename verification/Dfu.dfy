/** Downloads through the boot loader, firmware/usb/dfu.c: what reaches the flash, and in which order. */
module Dfu {
  import opened Machine
  import opened Endpoint
  import opened Usb
  import opened UsbSafety

  /** The block number of the k-th block of a session: numbers are kept in 16 bits. */
  function Number(s: Session, k: nat): uint16 {
    (s.first + k) % 0x1_0000
  }

  /** One more than the place of the last block written. */
  function Next(writes: seq<Write>): nat {
    if writes == [] then 0 else writes[|writes| - 1].ordinal + 1
  }

  predicate Increasing(writes: seq<Write>) {
    forall i, j :: 0 <= i < j < |writes| ==> writes[i].ordinal < writes[j].ordinal
  }

  /** The block whose data the control endpoint is waiting for. */
  function Pending(d: Device): Option<nat> {
    if d.eps[0].Rx? && d.eps[0].callback.BlockWrite? then Some(d.eps[0].callback.ordinal) else None
  }

  predicate WritesBlocks(x: Transfer) {
    x.Rx? && x.callback.BlockWrite?
  }

  predicate Inv(d: Device) {
    var s := d.session;
    && d.handler == Loader
    && !WritesBlocks(d.eps[1]) && !WritesBlocks(d.eps[2])
    && Increasing(s.writes) && Next(s.writes) <= s.count
    && (Pending(d).Some? ==> Pending(d).value + 1 == s.count && Next(s.writes) < s.count && d.dfu == DnloadIdle)
    && (d.dfu == DnloadIdle ==> s.count > 0 && d.nextBlock == Number(s, s.count))
  }

  // ----- What a step can do to a session -----

  /** The session goes on as it was, at most losing the block it was waiting for. */
  predicate Quiet(d: Device, c: Device) {
    && c.session == d.session && c.handler == d.handler && c.eps[1] == d.eps[1] && c.eps[2] == d.eps[2]
    && (Pending(c).Some? ==> Pending(c) == Pending(d))
  }

  lemma StandardIsQuiet(t: Tables, d: Device, s: Setup, e: Env)
    requires WellFormed(t) && d.handler == Loader
    ensures var r := HandleSetup(t, d, s, e);
      || r == LoaderSetup(d, s, e)
      || (&& Quiet(d, r.0) && r.0.dfu == d.dfu && r.0.nextBlock == d.nextBlock
          && (r.0.eps[0] == d.eps[0] || r.0.eps[0].Tx?))
  {
    hide LoaderSetup, Find, Descriptor;
  }

  // ----- The invariant -----

  lemma DnloadKeepsInv(d: Device, s: Setup, e: Env)
    requires Inv(d) && d.eps[0] == Idle
    ensures Inv(Dnload(d, s, e).0)
  {
    hide Increasing;
    NumberNext(d.session, d.session.count);
    NumberNext(Begin(d, s).session, 0);
    EmptyIncreases();
  }

  lemma NumberNext(s: Session, k: nat)
    ensures Number(s, k + 1) == (Number(s, k) + 1) % 0x1_0000
    ensures Number(s, 0) == s.first
  {
    ModNext(s.first + k);
  }

  lemma ModNext(x: nat)
    ensures (x + 1) % 0x1_0000 == (x % 0x1_0000 + 1) % 0x1_0000
  {}

  lemma EmptyIncreases()
    ensures Increasing([])
  {}

  lemma LoaderKeepsInv(d: Device, s: Setup, e: Env)
    requires Inv(d) && d.eps[0] == Idle
    ensures Inv(LoaderSetup(d, s, e).0)
  {
    hide Increasing, Dnload, Upload, Number, Next;
    DnloadKeepsInv(d, s, e);
    UploadKeepsInv(d, s, e);
  }

  lemma UploadKeepsInv(d: Device, s: Setup, e: Env)
    requires Inv(d) && d.eps[0] == Idle
    ensures Inv(Upload(d, s, e).0)
  {
    hide Increasing, Number;
    NumberNext(Begin(d, s).session, 0);
    EmptyIncreases();
  }

  lemma RequestKeepsInv(t: Tables, d: Device, s: Setup, e: Env)
    requires WellFormed(t) && Inv(d) && d.eps[0] == Idle
    ensures Inv(HandleSetup(t, d, s, e).0)
  {
    hide Increasing, HandleSetup, LoaderSetup, Number;
    StandardIsQuiet(t, d, s, e);
    LoaderKeepsInv(d, s, e);
  }

  lemma IncreasingSnoc(writes: seq<Write>, w: Write)
    requires Increasing(writes) && Next(writes) <= w.ordinal
    ensures Increasing(writes + [w]) && Next(writes + [w]) == w.ordinal + 1
  {
    var all := writes + [w];
    forall i, j | 0 <= i < j < |all| ensures all[i].ordinal < all[j].ordinal {
      assert writes != [] ==> i == |writes| - 1 || writes[i].ordinal < writes[|writes| - 1].ordinal || j < |writes|;
    }
  }

  lemma ReceiveKeepsInv(d: Device, n: nat, packet: seq<uint8>)
    requires Inv(d) && n < NUM_EPS && d.eps[n].Rx?
    ensures Inv(ReceivePacket(d, n, packet).0)
  {
    hide Increasing, Next;
    if n == 0 {
      if d.eps[0].callback.BlockWrite? {
        IncreasingSnoc(d.session.writes, Write(d.eps[0].callback.ordinal, d.eps[0].got + packet));
      }
    } else if n == 1 {
    } else {
      assert n == 2;
    }
  }

  lemma DataKeepsInv(d: Device, n: nat, f: Flags)
    requires Inv(d) && n < NUM_EPS
    ensures Inv(HandleData(d, n, f))
  {
    hide Increasing, Number, Next, ReceivePacket, NextPacket;
    if f.out.Some? && d.eps[n].Rx? {
      ReceiveKeepsInv(d, n, f.out.value);
    }
  }

  lemma StepKeepsInv(t: Tables, d: Device, e: Event)
    requires WellFormed(t) && Possible(e) && Inv(d)
    ensures Inv(Step(t, d, e))
  {
    hide Increasing, Number, Next, HandleSetup, HandleData;
    if d.halt == Running && e.Interrupt? {
      if e.flags.setup.Some? {
        var i := Usb.Cancel(d, 0);
        RequestKeepsInv(t, i, e.flags.setup.value, e.env);
        DataKeepsInv(EpSetup(t, i, e.flags.setup.value, e.env).0, 0, e.flags);
      } else {
        DataKeepsInv(d, e.n, e.flags);
      }
    }
  }

  lemma {:induction false} RunKeepsInv(t: Tables, d: Device, events: seq<Event>)
    requires WellFormed(t) && IsRun(events) && Inv(d)
    ensures Inv(Run(t, d, events))
    decreases |events|
  {
    hide Step, Inv;
    if events == [] {
    } else {
      assert Possible(events[0]);
      StepKeepsInv(t, d, events[0]);
      RunKeepsInv(t, Step(t, d, events[0]), events[1..]);
    }
  }

  /** In every run of the boot loader, whatever requests and packets the host sends, the blocks of a
      session are written to flash in the order in which they were accepted, each at most once. If the
      session is no longer than 65536 blocks their numbers are all different, and of two blocks the later
      one has the larger number exactly if the numbers have not started over in between. */
  lemma WritesInOrder(t: Tables, events: seq<Event>)
    requires WellFormed(t) && IsRun(events)
    ensures var s := Run(t, Initial(true), events).session;
      forall i, j :: 0 <= i < j < |s.writes| ==>
        var a, b := s.writes[i].ordinal, s.writes[j].ordinal;
        && a < b < s.count
        && (s.count <= 0x1_0000 ==> Number(s, a) != Number(s, b))
        && (s.count <= 0x1_0000 ==>
              (Number(s, a) < Number(s, b) <==> (s.first + a) / 0x1_0000 == (s.first + b) / 0x1_0000))
  {
    hide Run, Initial, Number;
    StartInv();
    RunKeepsInv(t, Initial(true), events);
    var s := Run(t, Initial(true), events).session;
    forall i, j | 0 <= i < j < |s.writes|
      ensures var a, b := s.writes[i].ordinal, s.writes[j].ordinal;
        && a < b < s.count
        && (s.count <= 0x1_0000 ==> Number(s, a) != Number(s, b))
        && (s.count <= 0x1_0000 ==>
              (Number(s, a) < Number(s, b) <==> (s.first + a) / 0x1_0000 == (s.first + b) / 0x1_0000))
    {
      NumbersDiffer(s, s.writes[i].ordinal, s.writes[j].ordinal);
    }
  }

  lemma StartInv()
    ensures Inv(Initial(true))
  {}

  lemma NumbersDiffer(s: Session, a: nat, b: nat)
    requires a < b
    ensures b - a < 0x1_0000 ==> Number(s, a) != Number(s, b)
    ensures b - a < 0x1_0000 ==> (Number(s, a) < Number(s, b) <==> (s.first + a) / 0x1_0000 == (s.first + b) / 0x1_0000)
  {}

  /** The number in the request is that of the block that will be written. */
  lemma AcceptedBlock(d: Device, s: Setup, e: Env)
    requires Inv(d) && d.eps[0] == Idle && d.halt == Running
    ensures var c := Dnload(d, s, e).0;
      Pending(c).Some? ==>
        && c.eps[0] == Rx([], s.wLength, BlockWrite(c.session.count - 1)) && 1 <= s.wLength <= EP0_SIZE
        && s.wValue == Number(c.session, c.session.count - 1)
  {
    hide Increasing;
  }

  // ----- Retransmission and errors -----

  /** The host sends the last block's request again. */
  predicate Repeats(d: Device, s: Setup) {
    && s.bmRequestType == DFU_TO_DEV && s.bRequest == DFU_DNLOAD
    && d.dfu == DnloadIdle && d.session.count > 0 && s.wValue == Number(d.session, d.session.count - 1)
  }

  lemma DnloadDispatch(t: Tables, d: Device, s: Setup, e: Env)
    requires WellFormed(t) && d.handler == Loader && s.bmRequestType == DFU_TO_DEV && s.bRequest == DFU_DNLOAD
    ensures HandleSetup(t, d, s, e) == Dnload(d, s, e)
  {
    hide Dnload;
  }

  /** A retransmission is accepted, answered by an empty packet, and writes nothing: if the block's data
      had not all arrived, the device no longer waits for it. */
  lemma RetransmissionWritesNothing(t: Tables, d: Device, s: Setup, e: Env)
    requires WellFormed(t) && Inv(d) && d.halt == Running && Repeats(d, s)
    ensures Step(t, d, SetupEvent(s, e)) == d.(eps := d.eps[0 := Tx([], Nothing)])
  {
    hide Increasing, Next, HandleSetup;
    DnloadDispatch(t, Usb.Cancel(d, 0), s, e);
    NumberNext(d.session, d.session.count - 1);
    assert d.eps[0 := Idle][0 := Tx([], Nothing)] == d.eps[0 := Tx([], Nothing)];
  }

  /** A request that takes the boot loader out of an error. */
  predicate Clears(s: Setup) {
    s.bmRequestType == DFU_TO_DEV && (s.bRequest == DFU_CLRSTATUS || s.bRequest == DFU_ABORT)
  }

  predicate NeverClears(events: seq<Event>) {
    forall i :: 0 <= i < |events| && events[i].Interrupt? && events[i].flags.setup.Some? ==>
      !Clears(events[i].flags.setup.value)
  }

  lemma ErrorStep(t: Tables, d: Device, e: Event)
    requires WellFormed(t) && Possible(e) && Inv(d) && d.dfu == DfuError
    requires e.Interrupt? && e.flags.setup.Some? ==> !Clears(e.flags.setup.value)
    ensures var c := Step(t, d, e); c.dfu == DfuError && c.session == d.session
  {
    hide Increasing, Number, Next, HandleSetup, HandleData;
    if d.halt == Running && e.Interrupt? {
      if e.flags.setup.Some? {
        var i := Usb.Cancel(d, 0);
        ErrorRequest(t, i, e.flags.setup.value, e.env);
        QuietData(EpSetup(t, i, e.flags.setup.value, e.env).0, 0, e.flags);
      } else {
        QuietData(d, e.n, e.flags);
      }
    }
  }

  lemma ErrorRequest(t: Tables, d: Device, s: Setup, e: Env)
    requires WellFormed(t) && d.handler == Loader && d.dfu == DfuError && d.eps[0] == Idle && !Clears(s)
    ensures var c := HandleSetup(t, d, s, e).0;
      c.dfu == DfuError && c.session == d.session && Pending(c) == None && c.eps[1] == d.eps[1] && c.eps[2] == d.eps[2]
  {
    hide HandleSetup;
    StandardIsQuiet(t, d, s, e);
  }

  /** Without a block pending, packets do not touch the download. */
  lemma QuietData(d: Device, n: nat, f: Flags)
    requires n < NUM_EPS && Pending(d) == None && !WritesBlocks(d.eps[1]) && !WritesBlocks(d.eps[2])
    ensures var c := HandleData(d, n, f); c.dfu == d.dfu && c.session == d.session
  {
    hide NextPacket;
    assert n == 0 || n == 1 || n == 2;
  }

  lemma {:induction false} ErrorLasts(t: Tables, d: Device, events: seq<Event>)
    requires WellFormed(t) && IsRun(events) && NeverClears(events) && Inv(d) && d.dfu == DfuError
    ensures var c := Run(t, d, events); c.dfu == DfuError && c.session == d.session
    decreases |events|
  {
    hide Step, Inv;
    if events == [] {
    } else {
      assert Possible(events[0]);
      StepKeepsInv(t, d, events[0]);
      ErrorStep(t, d, events[0]);
      ErrorLasts(t, Step(t, d, events[0]), events[1..]);
    }
  }

  /** After a block number that is neither the next nor the last one, nothing is written until the host
      sends CLRSTATUS or ABORT, whatever else it sends. */
  lemma NothingAfterWrongBlock(t: Tables, d: Device, s: Setup, e: Env, events: seq<Event>)
    requires WellFormed(t) && Inv(d) && d.halt == Running && d.dfu == DnloadIdle
    requires s.bmRequestType == DFU_TO_DEV && s.bRequest == DFU_DNLOAD
    requires s.wValue != Number(d.session, d.session.count) && s.wValue != Number(d.session, d.session.count - 1)
    requires IsRun(events) && NeverClears(events)
    ensures var c := Run(t, Step(t, d, SetupEvent(s, e)), events); c.dfu == DfuError && c.session == d.session
  {
    hide Run, Increasing, Next, HandleSetup;
    DnloadDispatch(t, Usb.Cancel(d, 0), s, e);
    NumberNext(d.session, d.session.count - 1);
    StepKeepsInv(t, d, SetupEvent(s, e));
    ErrorLasts(t, Step(t, d, SetupEvent(s, e)), events);
  }

  // ----- Blocks that are lost -----

  predicate Absent(writes: seq<Write>, k: nat) {
    forall i :: 0 <= i < |writes| ==> writes[i].ordinal != k
  }

  /** The k-th block of the session is accepted but not written, and its data are not awaited; or the
      session is over. */
  predicate Lost(d: Device, serial: nat, k: nat) {
    d.session.serial > serial
    || (d.session.serial == serial && k < d.session.count && Pending(d) != Some(k) && Absent(d.session.writes, k))
  }

  lemma LoaderKeepsLost(d: Device, s: Setup, e: Env, serial: nat, k: nat)
    requires Lost(d, serial, k) && d.eps[0] == Idle
    ensures Lost(LoaderSetup(d, s, e).0, serial, k)
  {
    hide Absent;
  }

  lemma RequestKeepsLost(t: Tables, d: Device, s: Setup, e: Env, serial: nat, k: nat)
    requires WellFormed(t) && d.handler == Loader && Lost(d, serial, k) && d.eps[0] == Idle
    ensures Lost(EpSetup(t, d, s, e).0, serial, k)
  {
    hide Absent, HandleSetup, LoaderSetup;
    StandardIsQuiet(t, d, s, e);
    LoaderKeepsLost(d, s, e, serial, k);
  }

  lemma AbsentSnoc(writes: seq<Write>, w: Write, k: nat)
    requires Absent(writes, k) && w.ordinal != k
    ensures Absent(writes + [w], k)
  {}

  lemma ReceiveKeepsLost(d: Device, n: nat, packet: seq<uint8>, serial: nat, k: nat)
    requires Inv(d) && Lost(d, serial, k) && n < NUM_EPS && d.eps[n].Rx?
    ensures Lost(ReceivePacket(d, n, packet).0, serial, k)
  {
    hide Absent, Increasing, Next, Number;
    if n == 0 {
      if d.eps[0].callback.BlockWrite? && d.session.serial == serial {
        AbsentSnoc(d.session.writes, Write(d.eps[0].callback.ordinal, d.eps[0].got + packet), k);
      }
    } else if n == 1 {
    } else {
      assert n == 2;
    }
  }

  lemma DataKeepsLost(d: Device, n: nat, f: Flags, serial: nat, k: nat)
    requires Inv(d) && Lost(d, serial, k) && n < NUM_EPS
    ensures Lost(HandleData(d, n, f), serial, k)
  {
    hide Absent, Increasing, Next, Number, ReceivePacket, NextPacket;
    if f.out.Some? && d.eps[n].Rx? {
      ReceiveKeepsLost(d, n, f.out.value, serial, k);
    }
  }

  lemma StepKeepsLost(t: Tables, d: Device, e: Event, serial: nat, k: nat)
    requires WellFormed(t) && Possible(e) && Inv(d) && Lost(d, serial, k)
    ensures Lost(Step(t, d, e), serial, k)
  {
    hide Absent, Increasing, Next, Number, EpSetup, HandleData;
    if d.halt == Running && e.Interrupt? {
      if e.flags.setup.Some? {
        var i := Usb.Cancel(d, 0);
        RequestKeepsLost(t, i, e.flags.setup.value, e.env, serial, k);
        SetupKeepsInv(t, i, e.flags.setup.value, e.env);
        DataKeepsLost(EpSetup(t, i, e.flags.setup.value, e.env).0, 0, e.flags, serial, k);
      } else {
        DataKeepsLost(d, e.n, e.flags, serial, k);
      }
    }
  }

  lemma SetupKeepsInv(t: Tables, d: Device, s: Setup, e: Env)
    requires WellFormed(t) && Inv(d) && d.eps[0] == Idle
    ensures Inv(EpSetup(t, d, s, e).0)
  {
    hide HandleSetup, Increasing, Number, Next;
    RequestKeepsInv(t, d, s, e);
  }

  lemma {:induction false} LostForever(t: Tables, d: Device, events: seq<Event>, serial: nat, k: nat)
    requires WellFormed(t) && IsRun(events) && Inv(d) && Lost(d, serial, k)
    ensures Lost(Run(t, d, events), serial, k)
    decreases |events|
  {
    hide Step, Inv, Lost;
    if events == [] {
    } else {
      assert Possible(events[0]);
      StepKeepsInv(t, d, events[0]);
      StepKeepsLost(t, d, events[0], serial, k);
      LostForever(t, Step(t, d, events[0]), events[1..], serial, k);
    }
  }

  /** The code's way with retransmissions loses a block whose request is repeated before its data have
      arrived: the repeated request is accepted, yet the block is never written in that session. */
  lemma InterruptedBlockIsLost(t: Tables, d: Device, s: Setup, e: Env, events: seq<Event>)
    requires WellFormed(t) && Inv(d) && d.halt == Running && Repeats(d, s) && Pending(d).Some? && IsRun(events)
    ensures Step(t, d, SetupEvent(s, e)).eps[0] == Tx([], Nothing)
    ensures Lost(Run(t, Step(t, d, SetupEvent(s, e)), events), d.session.serial, d.session.count - 1)
  {
    hide Run, Increasing, HandleEp;
    var k := d.session.count - 1;
    var c := Step(t, d, SetupEvent(s, e));
    RetransmissionWritesNothing(t, d, s, e);
    StepKeepsInv(t, d, SetupEvent(s, e));
    LaterAbsent(d.session.writes, k);
    LostForever(t, c, events, d.session.serial, k);
  }

  lemma LaterAbsent(writes: seq<Write>, k: nat)
    requires Increasing(writes) && Next(writes) <= k
    ensures Absent(writes, k)
  {}

  /** A block that the device refuses, because it is too long or because of `flash_can_write`, is lost in
      the same way: its request is stalled, but the state says that the download goes on, with the next
      number, and when the host repeats the request it is accepted. */
  lemma RefusedBlockIsLost(t: Tables, d: Device, s: Setup, e: Env, e2: Env, events: seq<Event>)
    requires WellFormed(t) && Inv(d) && d.halt == Running && d.dfu == DnloadIdle
    requires s.bmRequestType == DFU_TO_DEV && s.bRequest == DFU_DNLOAD && s.wValue == Number(d.session, d.session.count)
    requires s.wLength > 0 && (!e.ok || s.wLength > EP0_SIZE) && IsRun(events)
    ensures var c := Step(t, d, SetupEvent(s, e));
      && c.eps[0] == Idle && c.dfu == DnloadIdle && c.status != OK
      && Step(t, c, SetupEvent(s, e2)) == c.(eps := c.eps[0 := Tx([], Nothing)])
      && Lost(Run(t, c, events), d.session.serial, d.session.count)
  {
    hide Run, Increasing, Next, HandleEp;
    var c := Step(t, d, SetupEvent(s, e));
    Refused(t, d, s, e);
    StepKeepsInv(t, d, SetupEvent(s, e));
    RetransmissionWritesNothing(t, c, s, e2);
    LaterAbsent(d.session.writes, d.session.count);
    LostForever(t, c, events, d.session.serial, d.session.count);
  }

  lemma Refused(t: Tables, d: Device, s: Setup, e: Env)
    requires WellFormed(t) && Inv(d) && d.halt == Running && d.dfu == DnloadIdle
    requires s.bmRequestType == DFU_TO_DEV && s.bRequest == DFU_DNLOAD && s.wValue == Number(d.session, d.session.count)
    requires s.wLength > 0 && (!e.ok || s.wLength > EP0_SIZE)
    ensures var c := Step(t, d, SetupEvent(s, e));
      && c.eps[0] == Idle && c.dfu == DnloadIdle && c.status != OK && c.halt == Running
      && c.session == d.session.(count := d.session.count + 1)
  {
    hide Increasing, Next, HandleSetup;
    DnloadDispatch(t, Usb.Cancel(d, 0), s, e);
    NumberNext(d.session, d.session.count);
  }

  // ----- A whole download -----

  /** The request to download a block of `length` bytes; a length of zero ends the download. */
  function Block(number: uint16, length: uint16): Setup {
    Setup(DFU_TO_DEV, DFU_DNLOAD, number, 0, length)
  }

  function Request(number: uint16, length: uint16): Event {
    SetupEvent(Block(number, length), Env([], true))
  }

  function Again(n: nat, e: Event): (r: seq<Event>)
    ensures |r| == n && forall i :: 0 <= i < n ==> r[i] == e
  {
    seq(n, _ => e)
  }

  /** One block: its request, its data, the status packet, and any number of repeated requests. */
  function BlockEvents(number: uint16, data: seq<uint8>, again: nat): (r: seq<Event>)
    requires |data| <= EP0_SIZE
    ensures IsRun(r)
  {
    [Request(number, |data|), OutEvent(0, data)] + Txinis(0, 1) + Again(again, Request(number, |data|))
  }

  predicate IsImage(blocks: seq<seq<uint8>>) {
    forall i :: 0 <= i < |blocks| ==> 1 <= |blocks[i]| <= EP0_SIZE
  }

  /** What a host does to download an image from block number `first` on. */
  function Script(first: uint16, blocks: seq<seq<uint8>>, again: seq<nat>): (r: seq<Event>)
    requires IsImage(blocks) && |again| == |blocks|
    ensures IsRun(r)
    decreases |blocks|
  {
    if blocks == [] then [Request(first, 0)]
    else BlockEvents(first, blocks[0], again[0]) + Script((first + 1) % 0x1_0000, blocks[1..], again[1..])
  }

  /** The writes of an image whose first block is the n-th of its session. */
  function Image(n: nat, blocks: seq<seq<uint8>>): seq<Write>
    decreases |blocks|
  {
    if blocks == [] then [] else [Write(n, blocks[0])] + Image(n + 1, blocks[1..])
  }

  /** The boot loader is about to take the block with this number. */
  predicate Ready(d: Device, number: uint16) {
    && Inv(d) && d.halt == Running
    && (d.dfu == DfuIdle || (d.dfu == DnloadIdle && d.nextBlock == number))
  }

  /** The session that the block belongs to. */
  function Current(d: Device, number: uint16): Session {
    if d.dfu == DfuIdle then Session(d.session.serial + 1, number, 0, []) else d.session
  }

  lemma RequestTaken(t: Tables, d: Device, number: uint16, length: uint16)
    requires WellFormed(t) && Ready(d, number) && 1 <= length <= EP0_SIZE
    ensures var c := Step(t, d, Request(number, length));
      && c.eps[0] == Rx([], length, BlockWrite(Current(d, number).count)) && c.dfu == DnloadIdle && c.halt == Running
      && c.nextBlock == (number + 1) % 0x1_0000
      && c.session == Current(d, number).(count := Current(d, number).count + 1)
  {
    hide Increasing, Next, HandleSetup, Number;
    DnloadDispatch(t, Usb.Cancel(d, 0), Block(number, length), Env([], true));
  }

  lemma DataTaken(t: Tables, d: Device, data: seq<uint8>, k: nat)
    requires WellFormed(t) && d.halt == Running && d.eps[0] == Rx([], |data|, BlockWrite(k))
    ensures var c := Step(t, d, OutEvent(0, data));
      && c.eps[0] == Tx([], Nothing) && c.dfu == d.dfu && c.halt == Running && c.nextBlock == d.nextBlock
      && c.session == d.session.(writes := d.session.writes + [Write(k, data)])
  {
    assert [] + data == data;
  }

  lemma {:induction false} RepeatedRequests(t: Tables, d: Device, n: nat, number: uint16, length: uint16)
    requires WellFormed(t) && Inv(d) && d.halt == Running && Repeats(d, Block(number, length))
    ensures IsRun(Again(n, Request(number, length)))
    ensures var c := Run(t, d, Again(n, Request(number, length)));
      Inv(c) && c.halt == Running && c.dfu == d.dfu && c.nextBlock == d.nextBlock && c.session == d.session
    decreases n
  {
    hide Step, Inv;
    if n == 0 {
    } else {
      var e := Request(number, length);
      var c := Step(t, d, e);
      RetransmissionWritesNothing(t, d, Block(number, length), Env([], true));
      StepKeepsInv(t, d, e);
      assert Again(n, e)[1..] == Again(n - 1, e);
      RepeatedRequests(t, c, n - 1, number, length);
    }
  }

  lemma {:induction false} RunConcat(t: Tables, d: Device, a: seq<Event>, b: seq<Event>)
    requires WellFormed(t) && IsRun(a) && IsRun(b)
    ensures IsRun(a + b) && Run(t, d, a + b) == Run(t, Run(t, d, a), b)
    decreases |a|
  {
    hide Step;
    if a == [] {
      assert a + b == b;
    } else {
      assert (a + b)[0] == a[0] && (a + b)[1..] == a[1..] + b;
      assert Possible(a[0]);
      RunConcat(t, Step(t, d, a[0]), a[1..], b);
    }
  }

  lemma BlockTaken(t: Tables, d: Device, number: uint16, data: seq<uint8>, again: nat)
    requires WellFormed(t) && Ready(d, number) && 1 <= |data| <= EP0_SIZE
    ensures var c, s := Run(t, d, BlockEvents(number, data, again)), Current(d, number);
      && Ready(c, (number + 1) % 0x1_0000) && c.dfu == DnloadIdle
      && c.session == s.(count := s.count + 1, writes := s.writes + [Write(s.count, data)])
  {
    hide Step, Increasing, Next;
    var s := Current(d, number);
    var c1 := Step(t, d, Request(number, |data|));
    RequestTaken(t, d, number, |data|);
    StepKeepsInv(t, d, Request(number, |data|));
    var c2 := Step(t, c1, OutEvent(0, data));
    DataTaken(t, c1, data, s.count);
    StepKeepsInv(t, c1, OutEvent(0, data));
    var c3 := TransmitOne(t, c2, 0);
    StepKeepsInv(t, c2, Txinis(0, 1)[0]);
    NumberBack(c3.session, number);
    RepeatedRequests(t, c3, again, number, |data|);
    ThreeSteps(t, d, Request(number, |data|), OutEvent(0, data), Txinis(0, 1)[0],
               Again(again, Request(number, |data|)));
    assert [Request(number, |data|), OutEvent(0, data)] + Txinis(0, 1) + Again(again, Request(number, |data|))
      == [Request(number, |data|), OutEvent(0, data), Txinis(0, 1)[0]] + Again(again, Request(number, |data|));
  }

  lemma NumberBack(s: Session, number: uint16)
    requires s.count > 0 && Number(s, s.count) == (number + 1) % 0x1_0000
    ensures Number(s, s.count - 1) == number
  {}

  lemma ThreeSteps(t: Tables, d: Device, a: Event, b: Event, c: Event, rest: seq<Event>)
    requires WellFormed(t) && Possible(a) && Possible(b) && Possible(c) && IsRun(rest)
    ensures IsRun([a, b, c] + rest)
    ensures Run(t, d, [a, b, c] + rest) == Run(t, Step(t, Step(t, Step(t, d, a), b), c), rest)
  {
    hide Step, Run;
    RunFirst(t, d, a, [b] + ([c] + rest));
    RunFirst(t, Step(t, d, a), b, [c] + rest);
    RunFirst(t, Step(t, Step(t, d, a), b), c, rest);
    assert [a, b, c] + rest == [a] + ([b] + ([c] + rest));
  }

  lemma RunFirst(t: Tables, d: Device, e: Event, rest: seq<Event>)
    requires WellFormed(t) && Possible(e) && IsRun(rest)
    ensures IsRun([e] + rest) && Run(t, d, [e] + rest) == Run(t, Step(t, d, e), rest)
  {
    hide Step;
    assert ([e] + rest)[1..] == rest;
  }

  lemma {:induction false} ScriptWrites(t: Tables, d: Device, first: uint16, blocks: seq<seq<uint8>>, again: seq<nat>)
    requires WellFormed(t) && IsImage(blocks) && |again| == |blocks| && Ready(d, first)
    ensures var c, s := Run(t, d, Script(first, blocks, again)), Current(d, first);
      && c.dfu == DfuIdle && c.halt == Running && c.effects != [] && c.effects[|c.effects| - 1] == FlashEnd
      && c.session == s.(count := s.count + |blocks|, writes := s.writes + Image(s.count, blocks))
    decreases |blocks|
  {
    hide Step, BlockEvents, Ready;
    var s := Current(d, first);
    if blocks == [] {
      LastRequest(t, d, first);
      assert [Request(first, 0)][1..] == [];
      assert s.writes + [] == s.writes;
    } else {
      var c := Run(t, d, BlockEvents(first, blocks[0], again[0]));
      var next := (first + 1) % 0x1_0000;
      BlockTaken(t, d, first, blocks[0], again[0]);
      ScriptWrites(t, c, next, blocks[1..], again[1..]);
      RunConcat(t, d, BlockEvents(first, blocks[0], again[0]), Script(next, blocks[1..], again[1..]));
      Assoc(s.writes, [Write(s.count, blocks[0])], Image(s.count + 1, blocks[1..]));
    }
  }

  lemma LastRequest(t: Tables, d: Device, number: uint16)
    requires WellFormed(t) && Ready(d, number)
    ensures var c := Step(t, d, Request(number, 0));
      && c.dfu == DfuIdle && c.halt == Running && c.effects != [] && c.effects[|c.effects| - 1] == FlashEnd
      && c.session == Current(d, number)
  {
    hide Increasing, Next, HandleSetup, Number;
    DnloadDispatch(t, Usb.Cancel(d, 0), Block(number, 0), Env([], true));
  }

  /** A download of any number of blocks, from any first number, even past 65535, with any of the requests
      repeated after their blocks are through: the flash gets exactly the image, block for block, and the
      boot loader is idle again. */
  lemma DownloadWritesImage(t: Tables, d: Device, first: uint16, blocks: seq<seq<uint8>>, again: seq<nat>)
    requires WellFormed(t) && Inv(d) && d.halt == Running && d.dfu == DfuIdle
    requires IsImage(blocks) && |again| == |blocks|
    ensures var c := Run(t, d, Script(first, blocks, again));
      && c.dfu == DfuIdle && c.effects != [] && c.effects[|c.effects| - 1] == FlashEnd
      && |c.session.writes| == |blocks|
      && forall i :: 0 <= i < |blocks| ==> c.session.writes[i] == Write(i, blocks[i])
  {
    hide Run, Script, Inv;
    ScriptWrites(t, d, first, blocks, again);
    ImageBlocks(0, blocks);
    assert [] + Image(0, blocks) == Image(0, blocks);
  }

  lemma {:induction false} ImageBlocks(n: nat, blocks: seq<seq<uint8>>)
    ensures |Image(n, blocks)| == |blocks|
    ensures forall i :: 0 <= i < |blocks| ==> Image(n, blocks)[i] == Write(n + i, blocks[i])
    decreases |blocks|
  {
    if blocks == [] {
    } else {
      ImageBlocks(n + 1, blocks[1..]);
    }
  }

  /** Two blocks from number 65535 on: the second has number 0. */
  lemma NumbersStartOver(t: Tables, d: Device, one: seq<uint8>, two: seq<uint8>)
    requires WellFormed(t) && Inv(d) && d.halt == Running && d.dfu == DfuIdle
    requires IsImage([one, two])
    ensures var s := Run(t, d, Script(65535, [one, two], [0, 0])).session;
      s.writes == [Write(0, one), Write(1, two)] && Number(s, 0) == 65535 && Number(s, 1) == 0
  {
    hide Run, Script, Inv;
    ScriptWrites(t, d, 65535, [one, two], [0, 0]);
    ImageBlocks(0, [one, two]);
    assert [] + Image(0, [one, two]) == [Write(0, one), Write(1, two)];
  }

  // ----- The fate of a block -----

  datatype Fate = Awaited | Done(data: seq<uint8>) | Gone

  /** What an event does to the block whose data the device awaits, from what is known before: any SETUP or
      bus reset ends the wait, and so does a packet that is too long, or a stall before the data are
      complete. */
  function FateOfStep(d: Device, e: Event): Fate
    requires Pending(d).Some?
  {
    if d.halt != Running then Awaited
    else
      match e
      case Reset => Gone
      case OfferFrame(_) => Awaited
      case AskForFrame => Awaited
      case Interrupt(n, f, _) =>
        if n != 0 then Awaited
        else if f.setup.Some? then Gone
        else if f.out.Some? && |d.eps[0].got| + |f.out.value| > d.eps[0].want then Gone
        else if f.out.Some? && |d.eps[0].got| + |f.out.value| == d.eps[0].want then Done(d.eps[0].got + f.out.value)
        else if f.stalled then Gone
        else Awaited
  }

  /** The block is in the flash, or the session is over. */
  predicate InFlash(d: Device, serial: nat, w: Write) {
    d.session.serial > serial || (d.session.serial == serial && w in d.session.writes)
  }

  /** An event decides in one of three ways, and in each exactly under the condition. */
  lemma FateExactly(t: Tables, d: Device, e: Event)
    requires WellFormed(t) && Possible(e) && Inv(d) && Pending(d).Some?
    ensures var c, k, fate := Step(t, d, e), Pending(d).value, FateOfStep(d, e);
      && (Pending(c) == Some(k) <==> fate.Awaited?)
      && (fate.Awaited? ==> c.session == d.session)
      && (!Absent(c.session.writes, k) <==> fate.Done?)
      && (fate.Done? ==> c.session == d.session.(writes := d.session.writes + [Write(k, fate.data)]))
      && (Lost(c, d.session.serial, k) <==> fate.Gone?)
  {
    hide Increasing, Next, Number, HandleEp;
    var k := Pending(d).value;
    LaterAbsent(d.session.writes, k);
    if d.halt == Running && e.Interrupt? {
      if e.flags.setup.Some? {
        SetupLoses(t, d, e.flags, e.env);
      } else if e.n == 0 {
        DataDecides(d, e.flags);
        assert FateOfStep(d, e) == FateOfStep(d, Interrupt(0, e.flags, Env([], false)));
        if FateOfStep(d, e).Done? {
          PresentSnoc(d.session.writes, Write(k, FateOfStep(d, e).data));
        }
        HandleWithoutSetup(t, d, 0, e.flags, e.env);
      } else {
        OtherEndpoint(d, e.n, e.flags);
        HandleWithoutSetup(t, d, e.n, e.flags, e.env);
      }
    }
  }

  lemma PresentSnoc(writes: seq<Write>, w: Write)
    ensures !Absent(writes + [w], w.ordinal)
  {
    assert (writes + [w])[|writes|] == w;
  }

  lemma HandleWithoutSetup(t: Tables, d: Device, n: nat, f: Flags, e: Env)
    requires WellFormed(t) && n < NUM_EPS && f.setup.None?
    ensures HandleEp(t, d, n, f, e) == HandleData(d, n, f)
  {}

  /** After a SETUP the block is not awaited, and no data can be its. */
  lemma SetupLoses(t: Tables, d: Device, f: Flags, e: Env)
    requires WellFormed(t) && Inv(d) && Pending(d).Some? && d.halt == Running && f.setup.Some?
    ensures var c, k := HandleEp(t, d, 0, f, e), Pending(d).value;
      Lost(c, d.session.serial, k) && Pending(c) != Some(k) && Absent(c.session.writes, k)
  {
    hide Increasing, Next, Number, EpSetup, HandleData, Absent;
    var k, i := Pending(d).value, Usb.Cancel(d, 0);
    assert Absent(d.session.writes, k) by {
      LaterAbsent(d.session.writes, k);
    }
    var c := EpSetup(t, i, f.setup.value, e).0;
    RequestKeepsLost(t, i, f.setup.value, e, d.session.serial, k);
    SetupKeepsInv(t, i, f.setup.value, e);
    SetupSameSession(t, i, f.setup.value, e);
    DataKeepsLost(c, 0, f, d.session.serial, k);
    DataSameSession(c, 0, f);
  }

  /** In a download under way no request begins another session. */
  lemma SetupSameSession(t: Tables, d: Device, s: Setup, e: Env)
    requires WellFormed(t) && d.handler == Loader && d.dfu == DnloadIdle
    ensures EpSetup(t, d, s, e).0.session.serial == d.session.serial
  {
    hide HandleSetup;
    StandardIsQuiet(t, d, s, e);
  }

  lemma DataSameSession(d: Device, n: nat, f: Flags)
    requires n < NUM_EPS
    ensures HandleData(d, n, f).session.serial == d.session.serial
  {
    hide NextPacket, AfterPacket, AfterReceive;
  }

  lemma DataDecides(d: Device, f: Flags)
    requires Inv(d) && Pending(d).Some? && d.halt == Running && f.setup.None?
    ensures var c, k, fate := HandleData(d, 0, f), Pending(d).value, FateOfStep(d, Interrupt(0, f, Env([], false)));
      && (fate.Awaited? ==> Pending(c) == Some(k) && c.session == d.session)
      && (fate.Done? ==>
            Pending(c) == None && c.session == d.session.(writes := d.session.writes + [Write(k, fate.data)]))
      && (fate.Gone? ==> Pending(c) == None && c.session == d.session)
  {
    hide Increasing, Next, Number, NextPacket;
  }

  lemma OtherEndpoint(d: Device, n: nat, f: Flags)
    requires Inv(d) && Pending(d).Some? && 0 < n < NUM_EPS
    ensures var c := HandleData(d, n, f); c.session == d.session && Pending(c) == Pending(d)
  {
    hide Increasing, Next, Number, NextPacket, AfterPacket;
    assert n == 1 || n == 2;
  }

  // ----- Over runs -----

  lemma LoaderKeepsFlash(d: Device, s: Setup, e: Env, serial: nat, w: Write)
    requires InFlash(d, serial, w)
    ensures InFlash(LoaderSetup(d, s, e).0, serial, w)
  {}

  lemma SetupKeepsFlash(t: Tables, d: Device, s: Setup, e: Env, serial: nat, w: Write)
    requires WellFormed(t) && d.handler == Loader && InFlash(d, serial, w)
    ensures InFlash(EpSetup(t, d, s, e).0, serial, w)
  {
    hide HandleSetup, LoaderSetup;
    StandardIsQuiet(t, d, s, e);
    LoaderKeepsFlash(d, s, e, serial, w);
  }

  lemma DataKeepsFlash(d: Device, n: nat, f: Flags, serial: nat, w: Write)
    requires n < NUM_EPS && InFlash(d, serial, w)
    ensures InFlash(HandleData(d, n, f), serial, w)
  {
    hide NextPacket, AfterPacket, AfterReceive;
  }

  lemma StepKeepsFlash(t: Tables, d: Device, e: Event, serial: nat, w: Write)
    requires WellFormed(t) && Possible(e) && d.handler == Loader && InFlash(d, serial, w)
    ensures InFlash(Step(t, d, e), serial, w)
  {
    hide EpSetup, HandleData;
    if d.halt == Running && e.Interrupt? {
      if e.flags.setup.Some? {
        var c := EpSetup(t, Usb.Cancel(d, 0), e.flags.setup.value, e.env).0;
        SetupKeepsFlash(t, Usb.Cancel(d, 0), e.flags.setup.value, e.env, serial, w);
        DataKeepsFlash(c, 0, e.flags, serial, w);
      } else {
        DataKeepsFlash(d, e.n, e.flags, serial, w);
      }
    }
  }

  lemma {:induction false} FlashForever(t: Tables, d: Device, events: seq<Event>, serial: nat, w: Write)
    requires WellFormed(t) && IsRun(events) && Inv(d) && InFlash(d, serial, w)
    ensures InFlash(Run(t, d, events), serial, w)
    decreases |events|
  {
    hide Step, Inv, InFlash;
    if events == [] {
    } else {
      assert Possible(events[0]);
      StepKeepsInv(t, d, events[0]);
      assert d.handler == Loader by {
        IsLoader(d);
      }
      StepKeepsFlash(t, d, events[0], serial, w);
      FlashForever(t, Step(t, d, events[0]), events[1..], serial, w);
    }
  }

  lemma IsLoader(d: Device)
    requires Inv(d)
    ensures d.handler == Loader
  {}

  /** The first event that decides. */
  ghost function FateOf(t: Tables, d: Device, events: seq<Event>): Fate
    requires WellFormed(t) && IsRun(events)
    decreases |events|
  {
    if events == [] || Pending(d).None? then Awaited
    else if !FateOfStep(d, events[0]).Awaited? then FateOfStep(d, events[0])
    else
      assert Possible(events[0]);
      FateOf(t, Step(t, d, events[0]), events[1..])
  }

  /** In every run from a state in which a block is awaited: it is still awaited, in the flash with the data
      that were sent for it, or lost, as the first event that decides says; and within its session it has
      been written exactly if that event completed its data. */
  lemma {:induction false} BlockFate(t: Tables, d: Device, events: seq<Event>)
    requires WellFormed(t) && IsRun(events) && Inv(d) && Pending(d).Some?
    ensures var c, k, serial := Run(t, d, events), Pending(d).value, d.session.serial;
      && (match FateOf(t, d, events)
          case Awaited => Pending(c) == Some(k) && c.session == d.session
          case Done(data) => InFlash(c, serial, Write(k, data))
          case Gone => Lost(c, serial, k))
      && (c.session.serial == serial ==> (!Absent(c.session.writes, k) <==> FateOf(t, d, events).Done?))
    decreases |events|
  {
    hide Step, Inv, InFlash, Lost, Absent, FateOfStep, Pending;
    var k, serial := Pending(d).value, d.session.serial;
    if events == [] {
      assert Absent(d.session.writes, k) by {
        PendingAbsent(d);
      }
    } else {
      var e := events[0];
      assert Possible(e);
      var c, fate := Step(t, d, e), FateOfStep(d, e);
      FateExactly(t, d, e);
      StepKeepsInv(t, d, e);
      match fate {
        case Awaited => BlockFate(t, c, events[1..]);
        case Done(data) =>
          WrittenNow(c, d, k, data);
          FlashForever(t, c, events[1..], serial, Write(k, data));
          FlashMeans(Run(t, c, events[1..]), serial, Write(k, data));
        case Gone =>
          LostForever(t, c, events[1..], serial, k);
          LostMeans(Run(t, c, events[1..]), serial, k);
      }
    }
  }

  lemma PendingAbsent(d: Device)
    requires Inv(d) && Pending(d).Some?
    ensures Absent(d.session.writes, Pending(d).value)
  {
    LaterAbsent(d.session.writes, Pending(d).value);
  }

  lemma WrittenNow(c: Device, d: Device, k: nat, data: seq<uint8>)
    requires c.session == d.session.(writes := d.session.writes + [Write(k, data)])
    ensures InFlash(c, d.session.serial, Write(k, data))
  {}

  lemma FlashMeans(c: Device, serial: nat, w: Write)
    requires InFlash(c, serial, w)
    ensures c.session.serial == serial ==> !Absent(c.session.writes, w.ordinal)
  {}

  lemma LostMeans(c: Device, serial: nat, k: nat)
    requires Lost(c, serial, k)
    ensures c.session.serial == serial ==> Absent(c.session.writes, k)
  {}

  /** The request for the next block, or the first. */
  predicate InSequence(d: Device, s: Setup) {
    && s.bmRequestType == DFU_TO_DEV && s.bRequest == DFU_DNLOAD && s.wLength > 0
    && (d.dfu == DfuIdle || (d.dfu == DnloadIdle && s.wValue == d.nextBlock))
  }

  /** A block in sequence is awaited exactly if the flash takes it and it fits the buffer; otherwise it is
      lost at once. */
  lemma AwaitedExactly(t: Tables, d: Device, s: Setup, e: Env)
    requires WellFormed(t) && Inv(d) && d.halt == Running && InSequence(d, s)
    ensures var c, k := Step(t, d, SetupEvent(s, e)), Current(d, s.wValue).count;
      && c.session == Current(d, s.wValue).(count := k + 1)
      && (Pending(c) == Some(k) <==> e.ok && s.wLength <= EP0_SIZE)
      && (Lost(c, c.session.serial, k) <==> !(e.ok && s.wLength <= EP0_SIZE))
  {
    hide Increasing, HandleSetup;
    DnloadDispatch(t, Usb.Cancel(d, 0), s, e);
    EmptyIncreases();
    LaterAbsent(Current(d, s.wValue).writes, Current(d, s.wValue).count);
  }

  /** From its request on, for every block in sequence and every run after it: within its session it is
      written exactly if it was not refused and the first event that decides completed its data. */
  lemma WrittenExactly(t: Tables, d: Device, s: Setup, e: Env, events: seq<Event>)
    requires WellFormed(t) && Inv(d) && d.halt == Running && InSequence(d, s) && IsRun(events)
    ensures var c, k := Step(t, d, SetupEvent(s, e)), Current(d, s.wValue).count;
      var r := Run(t, c, events);
      r.session.serial == c.session.serial ==>
        (!Absent(r.session.writes, k) <==> e.ok && s.wLength <= EP0_SIZE && FateOf(t, c, events).Done?)
  {
    hide Inv, Run, FateOf, Step, Absent, Lost, Pending, Current, InSequence;
    var c, k := Step(t, d, SetupEvent(s, e)), Current(d, s.wValue).count;
    AwaitedExactly(t, d, s, e);
    StepKeepsInv(t, d, SetupEvent(s, e));
    if e.ok && s.wLength <= EP0_SIZE {
      BlockFate(t, c, events);
    } else {
      LostForever(t, c, events, c.session.serial, k);
      LostMeans(Run(t, c, events), c.session.serial, k);
    }
  }

  // ----- Uploads -----

  /** The request to upload the next eight bytes; `chunk` is what the flash then yields. */
  function Fetch(number: uint16, chunk: seq<uint8>): Event {
    SetupEvent(Setup(DFU_FROM_DEV, DFU_UPLOAD, number, 0, EP0_SIZE), Env(chunk, true))
  }

  /** What the host has read from the control endpoint. */
  function HostReads(effects: seq<Effect>): seq<uint8> {
    if effects == [] then []
    else
      var n := |effects| - 1;
      HostReads(effects[..n]) + if effects[n].Sent? && effects[n].n == 0 then effects[n].packet else []
  }

  predicate Chunks(chunks: seq<seq<uint8>>) {
    forall i :: 0 <= i < |chunks| ==> |chunks[i]| <= EP0_SIZE
  }

  /** A request and two IN tokens for each chunk: a full one is followed by an empty packet. */
  function UploadScript(first: uint16, chunks: seq<seq<uint8>>): (r: seq<Event>)
    ensures IsRun(r)
    decreases |chunks|
  {
    if chunks == [] then []
    else [Fetch(first, chunks[0])] + Txinis(0, 2) + UploadScript((first + 1) % 0x1_0000, chunks[1..])
  }

  /** The boot loader is about to send the block with this number. */
  predicate Serves(d: Device, number: uint16) {
    && d.handler == Loader && d.halt == Running
    && (d.dfu == DfuIdle || (d.dfu == UploadIdle && d.nextBlock == number))
  }

  lemma FetchTaken(t: Tables, d: Device, number: uint16, chunk: seq<uint8>)
    requires WellFormed(t) && Serves(d, number) && |chunk| <= EP0_SIZE
    ensures var c := Step(t, d, Fetch(number, chunk));
      && Serves(c, (number + 1) % 0x1_0000) && c.dfu == UploadIdle && c.eps[0] == Tx(chunk, Nothing)
      && HostReads(c.effects) == HostReads(d.effects)
  {
    hide HandleSetup;
    UploadDispatch(t, Usb.Cancel(d, 0), Setup(DFU_FROM_DEV, DFU_UPLOAD, number, 0, EP0_SIZE), Env(chunk, true));
    assert (d.effects + [FlashStart])[..|d.effects|] == d.effects;
    assert HostReads(d.effects) + [] == HostReads(d.effects);
  }

  lemma UploadDispatch(t: Tables, d: Device, s: Setup, e: Env)
    requires WellFormed(t) && d.handler == Loader && s.bmRequestType == DFU_FROM_DEV && s.bRequest == DFU_UPLOAD
    ensures HandleSetup(t, d, s, e) == Upload(d, s, e)
  {
    hide Upload;
  }

  lemma {:induction false} HostReadsPackets(effects: seq<Effect>, packets: seq<seq<uint8>>)
    ensures HostReads(effects + Packets0(packets)) == HostReads(effects) + Concat(packets)
    decreases |packets|
  {
    hide HostReads;
    if packets == [] {
      assert effects + Packets0(packets) == effects;
    } else {
      HostReadsOne(effects, packets[0]);
      HostReadsPackets(effects + [Sent(0, packets[0])], packets[1..]);
      assert Packets0(packets) == [Sent(0, packets[0])] + Packets0(packets[1..]);
      Assoc(effects, [Sent(0, packets[0])], Packets0(packets[1..]));
      Assoc(HostReads(effects), packets[0], Concat(packets[1..]));
    }
  }

  lemma HostReadsOne(effects: seq<Effect>, packet: seq<uint8>)
    ensures HostReads(effects + [Sent(0, packet)]) == HostReads(effects) + packet
  {
    assert (effects + [Sent(0, packet)])[..|effects|] == effects;
  }

  lemma ChunkRead(t: Tables, d: Device, number: uint16, chunk: seq<uint8>)
    requires WellFormed(t) && Serves(d, number) && |chunk| <= EP0_SIZE
    ensures var c := Run(t, Step(t, d, Fetch(number, chunk)), Txinis(0, 2));
      && Serves(c, (number + 1) % 0x1_0000) && c.dfu == UploadIdle
      && HostReads(c.effects) == HostReads(d.effects) + chunk
  {
    hide Step, Run, TxRun, HostReads, Concat, Chopped;
    var c := Step(t, d, Fetch(number, chunk));
    FetchTaken(t, d, number, chunk);
    assert Count(|chunk|, EP0_SIZE) <= 2;
    var packets := SendsBuffer(chunk, Nothing, EP0_SIZE, 2);
    TransmitRun(t, c, 0, 2);
    assert Endpoint.Packets(packets) + [] == Endpoint.Packets(packets);
    SentByPackets(packets);
    HostReadsPackets(c.effects, packets);
  }

  /** An upload of any number of chunks, from any first number: the host reads exactly what the flash
      yields, in order. */
  lemma {:induction false} UploadReadsFlash(t: Tables, d: Device, first: uint16, chunks: seq<seq<uint8>>)
    requires WellFormed(t) && Serves(d, first) && Chunks(chunks)
    ensures HostReads(Run(t, d, UploadScript(first, chunks)).effects) == HostReads(d.effects) + Concat(chunks)
    decreases |chunks|
  {
    hide Step, HostReads, Serves;
    if chunks == [] {
      assert HostReads(d.effects) + [] == HostReads(d.effects);
    } else {
      var e, rest := Fetch(first, chunks[0]), UploadScript((first + 1) % 0x1_0000, chunks[1..]);
      var c := Run(t, Step(t, d, e), Txinis(0, 2));
      ChunkRead(t, d, first, chunks[0]);
      UploadReadsFlash(t, c, (first + 1) % 0x1_0000, chunks[1..]);
      RunConcat(t, Step(t, d, e), Txinis(0, 2), rest);
      RunFirst(t, d, e, Txinis(0, 2) + rest);
      Assoc([e], Txinis(0, 2), rest);
      Assoc(HostReads(d.effects), chunks[0], Concat(chunks[1..]));
    }
  }

  // ----- Out of an error -----

  /** The boot loader does not stop. */
  lemma StepRuns(t: Tables, d: Device, e: Event)
    requires WellFormed(t) && Possible(e) && Inv(d) && d.halt == Running
    ensures Step(t, d, e).halt == Running
  {
    hide HandleSetup, HandleData, Increasing, Next, Number;
    if e.Interrupt? {
      DataHalts(d, e.n, e.flags);
      if e.flags.setup.Some? {
        var i := Usb.Cancel(d, 0);
        OneTransfer(t, i, e.flags.setup.value, e.env);
        StandardIsQuiet(t, i, e.flags.setup.value, e.env);
        RequestRuns(t, i, e.flags.setup.value, e.env);
        DataHalts(EpSetup(t, i, e.flags.setup.value, e.env).0, 0, e.flags);
      }
    }
  }

  lemma RequestRuns(t: Tables, d: Device, s: Setup, e: Env)
    requires WellFormed(t) && d.handler == Loader && d.halt == Running && d.eps[0] == Idle
    ensures HandleSetup(t, d, s, e).0.halt == Running
  {
    hide Find, Descriptor, LoaderSetup, Starts;
    OneTransfer(t, d, s, e);
    LoaderHalts(d, s, e);
  }

  lemma {:induction false} RunRuns(t: Tables, d: Device, events: seq<Event>)
    requires WellFormed(t) && IsRun(events) && Inv(d) && d.halt == Running
    ensures Run(t, d, events).halt == Running
    decreases |events|
  {
    hide Step, Inv;
    if events == [] {
    } else {
      assert Possible(events[0]);
      StepRuns(t, d, events[0]);
      StepKeepsInv(t, d, events[0]);
      RunRuns(t, Step(t, d, events[0]), events[1..]);
    }
  }

  /** CLRSTATUS and ABORT are acknowledged in every state and end every error. */
  lemma ClearingEndsError(t: Tables, d: Device, s: Setup, e: Env)
    requires WellFormed(t) && Inv(d) && d.halt == Running && Clears(s)
    ensures Step(t, d, SetupEvent(s, e)) == d.(eps := d.eps[0 := Tx([], Nothing)], dfu := DfuIdle, status := OK)
  {
    hide Find, Descriptor, SetInterface, Increasing, Next, Number, Dnload, Upload;
    assert d.eps[0 := Idle][0 := Tx([], Nothing)] == d.eps[0 := Tx([], Nothing)];
  }

  function StatusRequest(): Setup {
    Setup(DFU_FROM_DEV, DFU_GETSTATUS, 0, 0, 6)
  }

  /** What the host reads when it asks for the status next. */
  lemma StatusReads(t: Tables, d: Device, e: Env)
    requires WellFormed(t) && Inv(d) && d.halt == Running
    ensures Step(t, Step(t, d, SetupEvent(StatusRequest(), e)), Txinis(0, 1)[0]).effects
         == d.effects + [Sent(0, [d.status, 100, 0, 0, d.dfu.Code(), 0])]
  {
    hide HandleEp, Increasing, Next, Number;
    StatusIsRead(t, d, StatusRequest(), e);
  }

  /** After CLRSTATUS or ABORT the host reads that there is no error and the state is dfuIDLE, 2. */
  lemma ClearedStatus(t: Tables, d: Device, s: Setup, e: Env)
    requires WellFormed(t) && Inv(d) && d.halt == Running && Clears(s)
    ensures var c := Step(t, d, SetupEvent(s, e));
      Step(t, Step(t, c, SetupEvent(StatusRequest(), e)), Txinis(0, 1)[0]).effects
        == c.effects + [Sent(0, [0, 100, 0, 0, 2, 0])]
  {
    hide HandleEp, Inv, Step;
    ClearingEndsError(t, d, s, e);
    StepKeepsInv(t, d, SetupEvent(s, e));
    StatusReads(t, Step(t, d, SetupEvent(s, e)), e);
  }

  /** What the host reads after a request for a block in sequence that is refused, and after one with a wrong
      number: errors 8 and 14 in state 5, which says that the download goes on, and error 14 in state 10. */
  lemma RefusedStatus(t: Tables, d: Device, s: Setup, e: Env)
    requires WellFormed(t) && Inv(d) && d.halt == Running
    requires s.bmRequestType == DFU_TO_DEV && s.bRequest == DFU_DNLOAD
    ensures var c := Step(t, d, SetupEvent(s, e));
      && (InSequence(d, s) && !e.ok ==> c.status == 8 && c.dfu.Code() == 5)
      && (InSequence(d, s) && e.ok && s.wLength > EP0_SIZE ==> c.status == 14 && c.dfu.Code() == 5)
      && (InSequence(d, s) && e.ok && s.wLength <= EP0_SIZE ==> c.status == d.status && c.dfu.Code() == 5)
      && (d.dfu == DnloadIdle && s.wValue != d.nextBlock && s.wValue != (d.nextBlock - 1) % 0x1_0000 ==>
            c.status == 14 && c.dfu.Code() == 10)
      && (d.dfu != DfuIdle && d.dfu != DnloadIdle ==> c.status == d.status && c.dfu == d.dfu && c.session == d.session)
  {
    hide Increasing, Next, HandleSetup, Number;
    DnloadDispatch(t, Usb.Cancel(d, 0), s, e);
  }

  /** And after requests of an upload. */
  lemma UploadStatus(t: Tables, d: Device, s: Setup, e: Env)
    requires WellFormed(t) && Inv(d) && d.halt == Running
    requires s.bmRequestType == DFU_FROM_DEV && s.bRequest == DFU_UPLOAD
    ensures var c := Step(t, d, SetupEvent(s, e));
      var next := d.dfu == DfuIdle || (d.dfu == UploadIdle && s.wValue == d.nextBlock);
      && (next ==> c.dfu.Code() == 9 && c.status == if s.wLength > EP0_SIZE then 14 else d.status)
      && (d.dfu == UploadIdle && s.wValue != d.nextBlock ==> c.status == 14 && c.dfu.Code() == 10)
      && (d.dfu != DfuIdle && d.dfu != UploadIdle ==> c.status == d.status && c.dfu == d.dfu)
  {
    hide Increasing, Next, HandleSetup, Number;
    UploadDispatch(t, Usb.Cancel(d, 0), s, e);
  }

  /** The way back from an error: after a wrong block and anything the host sends but CLRSTATUS and ABORT, one
      of these and a whole download write exactly the image, in a session of its own. */
  lemma DownloadAfterError(t: Tables, d: Device, wrong: Setup, e: Env, events: seq<Event>, clear: Setup,
                           first: uint16, blocks: seq<seq<uint8>>, again: seq<nat>)
    requires WellFormed(t) && Inv(d) && d.halt == Running && d.dfu == DnloadIdle
    requires wrong.bmRequestType == DFU_TO_DEV && wrong.bRequest == DFU_DNLOAD
    requires wrong.wValue != Number(d.session, d.session.count)
    requires wrong.wValue != Number(d.session, d.session.count - 1)
    requires IsRun(events) && NeverClears(events) && Clears(clear)
    requires IsImage(blocks) && |again| == |blocks|
    ensures var failed := Run(t, Step(t, d, SetupEvent(wrong, e)), events);
      var c := Run(t, Step(t, failed, SetupEvent(clear, e)), Script(first, blocks, again));
      && failed.dfu == DfuError && failed.session == d.session
      && c.dfu == DfuIdle && c.session.serial == d.session.serial + 1 && c.session.first == first
      && |c.session.writes| == |blocks|
      && forall i :: 0 <= i < |blocks| ==> c.session.writes[i] == Write(i, blocks[i])
  {
    hide Run, Script, Inv, Step, Clears, Number;
    NothingAfterWrongBlock(t, d, wrong, e, events);
    var f := Step(t, d, SetupEvent(wrong, e));
    StepKeepsInv(t, d, SetupEvent(wrong, e));
    StepRuns(t, d, SetupEvent(wrong, e));
    RunKeepsInv(t, f, events);
    RunRuns(t, f, events);
    var failed := Run(t, f, events);
    ClearingEndsError(t, failed, clear, e);
    StepKeepsInv(t, failed, SetupEvent(clear, e));
    var c := Step(t, failed, SetupEvent(clear, e));
    ScriptWrites(t, c, first, blocks, again);
    ImageBlocks(0, blocks);
    assert [] + Image(0, blocks) == Image(0, blocks);
  }
}

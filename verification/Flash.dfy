/** What the boot loader does to the flash: the history of a download is what its effects show. */
module Flash {
  import opened Machine
  import opened Endpoint
  import opened Usb
  import opened UsbSafety
  import opened Dfu

  /** How often `flash_start` has been called. */
  function Begun(effects: seq<Effect>): nat {
    if effects == [] then 0
    else
      var n := |effects| - 1;
      Begun(effects[..n]) + if effects[n].FlashStart? then 1 else 0
  }

  /** What `flash_write` has been given since then. */
  function Programmed(effects: seq<Effect>): seq<Write> {
    if effects == [] then []
    else
      var n := |effects| - 1;
      if effects[n].FlashStart? then []
      else if effects[n].FlashWrite? then Programmed(effects[..n]) + [Write(effects[n].ordinal, effects[n].data)]
      else Programmed(effects[..n])
  }

  predicate Mirrors(d: Device) {
    Begun(d.effects) == d.session.serial && Programmed(d.effects) == d.session.writes
  }

  predicate ConcernsFlash(e: Effect) {
    e.FlashStart? || e.FlashWrite?
  }

  /** At most one thing has been done, and nothing to the flash. */
  predicate Adds(d: Device, c: Device) {
    && c.session.serial == d.session.serial && c.session.writes == d.session.writes
    && (|| c.effects == d.effects
        || (&& c.effects != [] && c.effects == d.effects + [c.effects[|c.effects| - 1]]
            && !ConcernsFlash(c.effects[|c.effects| - 1])))
  }

  lemma Snoc(effects: seq<Effect>, e: Effect)
    ensures Begun(effects + [e]) == Begun(effects) + if e.FlashStart? then 1 else 0
    ensures Programmed(effects + [e])
         == if e.FlashStart? then []
            else if e.FlashWrite? then Programmed(effects) + [Write(e.ordinal, e.data)]
            else Programmed(effects)
  {
    assert (effects + [e])[..|effects|] == effects;
  }

  lemma AddsMirrors(d: Device, c: Device)
    requires Mirrors(d) && Adds(d, c)
    ensures Mirrors(c)
  {
    hide Begun, Programmed;
    if c.effects != d.effects {
      Snoc(d.effects, c.effects[|c.effects| - 1]);
    }
  }

  // ----- Requests -----

  lemma StandardAdds(t: Tables, d: Device, s: Setup, e: Env)
    requires WellFormed(t)
    ensures HandleSetup(t, d, s, e) == UserSetup(t, d, s, e) || Adds(d, HandleSetup(t, d, s, e).0)
  {
    hide UserSetup, Find, Descriptor;
  }

  lemma VendorAdds(t: Tables, d: Device, s: Setup, e: Env)
    ensures Adds(d, VendorSetup(t, d, s, e).0)
  {
    hide Reach, BuildString;
  }

  lemma BeginMirrors(d: Device, s: Setup)
    requires Mirrors(d)
    ensures Mirrors(Begin(d, s))
  {
    hide Begun, Programmed;
    Snoc(d.effects, FlashStart);
  }

  lemma LoaderMirrors(d: Device, s: Setup, e: Env)
    requires Mirrors(d)
    ensures Mirrors(LoaderSetup(d, s, e).0)
  {
    hide Begun, Programmed, Begin;
    var b := Begin(d, s);
    BeginMirrors(d, s);
    Snoc(b.effects, FlashEnd);
  }

  lemma RequestMirrors(t: Tables, d: Device, s: Setup, e: Env)
    requires WellFormed(t) && Mirrors(d)
    ensures Mirrors(HandleSetup(t, d, s, e).0)
  {
    hide Mirrors, HandleSetup, VendorSetup, LoaderSetup;
    StandardAdds(t, d, s, e);
    if HandleSetup(t, d, s, e) == UserSetup(t, d, s, e) {
      match d.handler {
        case Vendor => VendorAdds(t, d, s, e);
        case Runtime =>
        case Loader => LoaderMirrors(d, s, e);
      }
    }
    if Adds(d, HandleSetup(t, d, s, e).0) {
      AddsMirrors(d, HandleSetup(t, d, s, e).0);
    }
  }

  // ----- Packets -----

  lemma CallbackMirrors(d: Device, callback: Callback, data: seq<uint8>)
    requires Mirrors(d)
    ensures Mirrors(ReceiveCallback(d, callback, data))
  {
    hide Begun, Programmed;
    if callback.BlockWrite? {
      Snoc(d.effects, FlashWrite(callback.ordinal, data));
    } else {
      AddsMirrors(d, ReceiveCallback(d, callback, data));
    }
  }

  lemma ReceiveMirrors(d: Device, n: nat, packet: seq<uint8>)
    requires n < NUM_EPS && d.eps[n].Rx? && Mirrors(d)
    ensures Mirrors(ReceivePacket(d, n, packet).0)
  {
    hide Begun, Programmed, ReceiveCallback;
    if Fits(d.eps[n], packet) {
      var c := d.(eps := d.eps[n := AfterReceive(d.eps[n], packet)]);
      CallbackMirrors(c, d.eps[n].callback, d.eps[n].got + packet);
    }
  }

  lemma DataMirrors(d: Device, n: nat, f: Flags)
    requires n < NUM_EPS && Mirrors(d)
    ensures Mirrors(HandleData(d, n, f))
  {
    hide Mirrors, ReceivePacket, TransmitPacket, Usb.Stall, Usb.Cancel;
    if f.out.Some? && d.eps[n].Rx? {
      ReceiveMirrors(d, n, f.out.value);
    }
    var c := if f.out.Some? && d.eps[n].Rx? then ReceivePacket(d, n, f.out.value).0 else d;
    EndMirrors(c, n);
    EndMirrors(Usb.Cancel(c, n), n);
  }

  lemma EndMirrors(d: Device, n: nat)
    requires n < NUM_EPS && Mirrors(d)
    ensures Mirrors(Usb.Stall(d, n)) && Mirrors(Usb.Cancel(d, n))
    ensures d.eps[n].Tx? ==> Mirrors(TransmitPacket(d, n))
  {
    hide Begun, Programmed;
    AddsMirrors(d, Usb.Stall(d, n));
    AddsMirrors(d, Usb.Cancel(d, n));
    if d.eps[n].Tx? {
      AddsMirrors(d, TransmitPacket(d, n));
    }
  }

  lemma StepMirrors(t: Tables, d: Device, e: Event)
    requires WellFormed(t) && Possible(e) && Mirrors(d)
    ensures Mirrors(Step(t, d, e))
  {
    hide Begun, Programmed, HandleSetup, HandleData, Usb.Cancel, Usb.Stall;
    if d.halt == Running && e.Interrupt? {
      DataMirrors(d, e.n, e.flags);
      if e.flags.setup.Some? {
        var i := Usb.Cancel(d, e.n);
        EndMirrors(d, e.n);
        RequestMirrors(t, i, e.flags.setup.value, e.env);
        var c := EpSetup(t, i, e.flags.setup.value, e.env).0;
        EndMirrors(c, e.n);
        DataMirrors(c, e.n, e.flags);
      }
    }
  }

  /** In every run from the start the history that the results about downloads speak of is what has been done to
      the flash: how often it was started, and what has been written since, in this order. */
  lemma {:induction false} FlashFollows(t: Tables, d: Device, events: seq<Event>)
    requires WellFormed(t) && IsRun(events) && Mirrors(d)
    ensures Mirrors(Run(t, d, events))
    decreases |events|
  {
    hide Step, Mirrors;
    if events == [] {
    } else {
      assert Possible(events[0]);
      StepMirrors(t, d, events[0]);
      FlashFollows(t, Step(t, d, events[0]), events[1..]);
    }
  }

  lemma StartMirrors(loader: bool)
    ensures Mirrors(Initial(loader)) && Inv(Initial(true))
    ensures Initial(true).dfu == DfuIdle && Initial(true).halt == Running
    ensures Initial(loader).handler == if loader then Loader else Vendor
  {}

  /** From power-up of the boot loader, after anything the host may have sent that left it in dfuIDLE, a
      download leaves the flash started once more, written with exactly the image, and ended. */
  lemma FlashHoldsImage(t: Tables, before: seq<Event>, first: uint16, blocks: seq<seq<uint8>>, again: seq<nat>)
    requires WellFormed(t) && IsRun(before) && Run(t, Initial(true), before).dfu == DfuIdle
    requires IsImage(blocks) && |again| == |blocks|
    ensures var d := Run(t, Initial(true), before);
      var effects := Run(t, d, Script(first, blocks, again)).effects;
      && Begun(effects) == Begun(d.effects) + 1
      && |Programmed(effects)| == |blocks|
      && (forall i :: 0 <= i < |blocks| ==> Programmed(effects)[i] == Write(i, blocks[i]))
      && effects != [] && effects[|effects| - 1] == FlashEnd
  {
    hide Run, Script, Inv, Begun, Programmed;
    StartMirrors(true);
    FlashFollows(t, Initial(true), before);
    RunKeepsInv(t, Initial(true), before);
    RunRuns(t, Initial(true), before);
    var d := Run(t, Initial(true), before);
    DownloadWritesImage(t, d, first, blocks, again);
    FlashFollows(t, d, Script(first, blocks, again));
    ScriptWrites(t, d, first, blocks, again);
  }
}

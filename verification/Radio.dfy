/** The nRF24L01+ driver of firmware/nrf24l01p.c over the two rings. */
module Radio {
  import opened Machine
  import opened Fifo

  /** The bits of the STATUS register that `nrf_irq` looks at. */
  datatype Status = Status(rxDr: bool, txDs: bool)

  /** What the chip holds for the receiver: the pipe number (above 5 if nothing is there), the payload
      width configured for the pipe, and the bytes on the air. */
  datatype Received = Received(pipe: nat, width: nat, data: Frame)

  /**
   The driver with its rings as queues, the chip's pins and mode, and the payloads written to it.
   */
  datatype Link = Link(tx: seq<Frame>, rx: seq<Frame>, txOn: bool, rxOn: bool,
                       ce: bool, pwrUp: bool, primRx: bool, written: seq<Frame>)
  {
    function Standby(): Link { this.(ce := false, pwrUp := true, primRx := false) }

    function RxMode(): Link { this.(pwrUp := true, primRx := true, ce := true) }

    function PowerDown(): Link { this.(ce := false, pwrUp := false, primRx := false) }

    function Transmit(f: Frame): Link {
      this.(pwrUp := true, primRx := false, written := written + [f], ce := true)
    }

    /** Starts the transmitter on the oldest queued frame unless it is running. */
    function WakeQueue(): Link {
      if tx == [] || txOn then this
      else Standby().Transmit(tx[0]).(tx := tx[1..], txOn := true)
    }

    function RxEnable(): Link {
      (if !txOn && !rxOn then Standby().RxMode() else this).(rxOn := true)
    }

    function RxDisable(): Link {
      var off := if !txOn && rxOn then PowerDown() else this;
      off.(rx := if rxOn then [] else rx, rxOn := false)
    }

    /** A frame is taken from the chip if there is room for it and it has the right width. */
    predicate Takes(r: Received) {
      |rx| < FIFO_SIZE && r.pipe <= 5 && r.width == PAYLOAD_SIZE
    }

    function Receive(r: Received): Link {
      if Takes(r) then this.(rx := rx + [r.data]) else this
    }

    function Sent(): Link {
      if tx != [] then this.(written := written + [tx[0]], tx := tx[1..])
      else if rxOn then this.(txOn := false).Standby().RxMode()
      else this.(txOn := false).Standby().PowerDown()
    }

    function Irq(status: Status, r: Received): Link {
      var l := if status.rxDr then Receive(r) else this;
      if status.txDs then l.Sent() else l
    }

    /** A frame from USB: dropped if the ring is full. */
    function Submit(f: Frame): Link {
      (if |tx| < FIFO_SIZE then this.(tx := tx + [f]) else this).WakeQueue()
    }
  }

  class Driver {
    const txRing: Ring
    const rxRing: Ring
    // The bits of `state`.
    var txOn: bool
    var rxOn: bool
    // The CE pin and the CONFIG bits of the chip.
    var ce: bool
    var pwrUp: bool
    var primRx: bool
    ghost var written: seq<Frame>

    ghost predicate Valid()
      reads this, txRing, rxRing
    {
      txRing.Valid() && rxRing.Valid() && txRing != rxRing && txRing.entry != rxRing.entry
    }

    ghost function State(): Link
      requires Valid()
      reads this, txRing, rxRing, txRing.entry, rxRing.entry
    {
      Link(txRing.Queue(), rxRing.Queue(), txOn, rxOn, ce, pwrUp, primRx, written)
    }

    /** After `nrf_init`, with the CE pin low. */
    constructor ()
      ensures Valid() && fresh(txRing) && fresh(rxRing) && fresh(txRing.entry) && fresh(rxRing.entry)
      ensures State().tx == [] && State().rx == [] && !txOn && !rxOn && !ce && written == []
    {
      txRing := new Ring();
      rxRing := new Ring();
      txOn, rxOn, ce, pwrUp, primRx, written := false, false, false, false, false, [];
    }

    method Standby()
      requires Valid()
      modifies this
      ensures Valid() && State() == old(State()).Standby()
    {
      ce := false;
      pwrUp, primRx := true, false;
    }

    method RxMode()
      requires Valid()
      modifies this
      ensures Valid() && State() == old(State()).RxMode()
    {
      pwrUp, primRx := true, true;
      ce := true;
    }

    method PowerDown()
      requires Valid()
      modifies this
      ensures Valid() && State() == old(State()).PowerDown()
    {
      ce := false;
      pwrUp, primRx := false, false;
    }

    /** The payload bytes of the oldest queued frame, clocked out to the chip. */
    method WritePayload(slot: nat)
      requires Valid() && txRing.GetTail() == Some(slot)
      modifies this`written
      ensures Valid() && State() == old(State()).(written := old(written) + [old(State()).tx[0]])
    {
      var data := txRing.Fetch(slot);
      written := written + [data];
    }

    method Transmit(slot: nat)
      requires Valid() && txRing.GetTail() == Some(slot)
      modifies this
      ensures Valid() && State() == old(State()).Transmit(old(State()).tx[0])
    {
      pwrUp, primRx := true, false;
      WritePayload(slot);
      ce := true;
    }

    method WakeQueue()
      requires Valid()
      modifies this, txRing
      ensures Valid() && State() == old(State()).WakeQueue()
    {
      if txRing.Count() == 0 {
        return;
      }
      if txOn {
        return;
      }
      Standby();
      Transmit(txRing.GetTail().value);
      txRing.Pop();
      txOn := true;
    }

    method RxEnable()
      requires Valid()
      modifies this
      ensures Valid() && State() == old(State()).RxEnable()
    {
      if !(txOn || rxOn) {
        Standby();
        RxMode();
      }
      rxOn := true;
    }

    method RxDisable()
      requires Valid()
      modifies this, rxRing
      ensures Valid() && State() == old(State()).RxDisable()
    {
      if !txOn && rxOn {
        PowerDown();
      }
      if rxOn {
        rxRing.Clear();
      }
      rxOn := false;
    }

    /** `nrf_rx` into the head slot: 0 if nothing was stored. */
    method Rx(slot: nat, r: Received) returns (size: nat)
      requires Valid() && rxRing.GetHead() == Some(slot)
      modifies rxRing.entry
      ensures Valid() && State() == old(State())
      ensures size != 0 <==> State().Takes(r)
      ensures size != 0 ==> rxRing.Slot(slot) == r.data
    {
      if r.pipe > 5 {
        return 0;
      }
      if r.width == PAYLOAD_SIZE {
        rxRing.Fill(slot, r.data);
        size := r.width;
      } else {
        size := 0;
      }
    }

    /** The interrupt handler. */
    method Irq(status: Status, r: Received)
      requires Valid()
      modifies this, txRing, rxRing, rxRing.entry
      ensures Valid() && State() == old(State()).Irq(status, r)
    {
      if status.rxDr {
        ReceiveReady(r);
      }
      if status.txDs {
        TransmitDone();
      }
    }

    method ReceiveReady(r: Received)
      requires Valid()
      modifies rxRing, rxRing.entry
      ensures Valid() && State() == old(State()).Receive(r)
    {
      if !rxRing.Full() {
        var size := Rx(rxRing.GetHead().value, r);
        if size != 0 {
          rxRing.Push();
        }
      }
    }

    method TransmitDone()
      requires Valid()
      modifies this, txRing
      ensures Valid() && State() == old(State()).Sent()
    {
      if txRing.Count() != 0 {
        WritePayload(txRing.GetTail().value);
        txRing.Pop();
      } else {
        txOn := false;
        Standby();
        if rxOn {
          RxMode();
        } else {
          PowerDown();
        }
      }
    }
  }
}

/** The timers of the device against an unbounded tick count: firmware/net/base.c on 16-bit jiffies. */
module Lease {
  import opened Machine
  import opened Fifo
  import opened Packets
  import opened Osc
  import opened Device

  /** The value of the counter after `tick` ticks. */
  function Jiffies(tick: nat): uint16 {
    tick % 0x1_0000
  }

  const LEASE := 2000

  lemma SinceExact(now: nat, then_: nat)
    requires then_ <= now
    ensures Since(Jiffies(now), Jiffies(then_)) == (now - then_) % 0x1_0000
  {}

  /** A call of `process_periodic_udp` or the reception of a packet, at a tick. */
  datatype Call = Poll(tick: nat, rx: seq<Frame>, button: bool) | Packet(tick: nat, packet: seq<uint8>, kept: bool)

  predicate Handles(d: Dev, c: Call) {
    c.Packet? ==> |c.packet| <= NETBUF_SZ && (c.kept && c.packet != [] ==> Tractable(Splice(d.buf, 0, c.packet)))
  }

  /** The device after a call, whether a packet of the periodic part was sent, and whether a DISCOVER was. */
  function Act(d: Dev, c: Call): (Dev, bool, bool)
    requires Handles(d, c)
  {
    match c
    case Poll(tick, rx, button) =>
      var (e, _, out) := Periodic(d, rx, button, Jiffies(tick));
      (e, out.Some?, out.Some? && out.value.message == Some(Discover))
    case Packet(tick, packet, kept) => (Device.Poll(d, packet, kept, Jiffies(tick)).0, false, false)
  }

  /** The device after a history of calls. */
  ghost function After(d: Dev, calls: seq<Call>): Dev
    requires Handled(d, calls)
    decreases |calls|
  {
    if calls == [] then d else After(Act(d, calls[0]).0, calls[1..])
  }

  ghost predicate Handled(d: Dev, calls: seq<Call>)
    decreases |calls|
  {
    calls == [] || (Handles(d, calls[0]) && Handled(Act(d, calls[0]).0, calls[1..]))
  }

  // ----- The lease -----

  /** Polls without the button, and packets of any kind but an INIT. */
  ghost predicate Undisturbed(d: Dev, calls: seq<Call>)
    requires Handled(d, calls)
    decreases |calls|
  {
    calls == [] ||
    (&& (match calls[0]
         case Poll(_, _, button) => !button
         case Packet(_, packet, kept) => kept && packet != [] ==> !Inits(d, packet))
     && Undisturbed(Act(d, calls[0]).0, calls[1..]))
  }

  /** The ticks at which the history polls. */
  function Ticks(calls: seq<Call>): seq<nat> {
    if calls == [] then []
    else (if calls[0].Poll? then [calls[0].tick] else []) + Ticks(calls[1..])
  }

  /** Where the 16-bit difference takes the lease for alive. */
  predicate InWindow(init: nat, tick: nat) {
    (tick - init) % 0x1_0000 <= LEASE
  }

  predicate AllInWindow(init: nat, ticks: seq<nat>) {
    forall i :: 0 <= i < |ticks| ==> InWindow(init, ticks[i])
  }

  /** No poll comes before the INIT. */
  predicate NotBefore(init: nat, ticks: seq<nat>) {
    forall i :: 0 <= i < |ticks| ==> init <= ticks[i]
  }

  /** No poll comes after the lease. */
  predicate Within(init: nat, ticks: seq<nat>) {
    forall i :: 0 <= i < |ticks| ==> ticks[i] <= init + LEASE
  }

  /** Polls in order after `start`, each less than 63536 ticks after the one before. */
  predicate Frequent(start: nat, ticks: seq<nat>)
    decreases |ticks|
  {
    ticks == [] || (start <= ticks[0] < start + 0x1_0000 - LEASE && Frequent(ticks[0], ticks[1..]))
  }

  /** What one call does to the binding. */
  lemma ActOnLease(d: Dev, c: Call, init: nat)
    requires Handles(d, c) && d.boundtime == Jiffies(init)
    requires match c
      case Poll(tick, _, button) => init <= tick && !button
      case Packet(_, packet, kept) => kept && packet != [] ==> !Inits(d, packet)
    ensures var e := Act(d, c).0;
      && e.boundtime == d.boundtime
      && (e.bound <==> d.bound && (c.Poll? ==> InWindow(init, c.tick)))
  {
    hide Datagram, Filled, Unicast, Inits;
    match c
    case Poll(tick, _, _) => SinceExact(tick, init);
    case Packet(tick, packet, kept) =>
      if kept {
        if packet == [] {
          EmptyPacket(d, Jiffies(tick));
        } else {
          OtherTraffic(d, packet, Jiffies(tick));
        }
      }
  }

  lemma EmptyPacket(d: Dev, jiffies: uint16)
    ensures Unicast(d, [], jiffies) == (d, None)
  {}

  /** In every history of polls, pings and other traffic after an INIT handled at tick `init`: the
      binding is still there exactly if every poll has found the 16-bit difference in the window. */
  lemma {:induction false} BoundExactly(d: Dev, init: nat, calls: seq<Call>)
    requires Handled(d, calls) && Undisturbed(d, calls)
    requires d.boundtime == Jiffies(init) && NotBefore(init, Ticks(calls))
    ensures After(d, calls).bound <==> d.bound && AllInWindow(init, Ticks(calls))
    decreases |calls|
  {
    hide Act, Handles, Inits, InWindow;
    if calls == [] {
    } else {
      var c, rest := calls[0], Ticks(calls[1..]);
      var own := if c.Poll? then [c.tick] else [];
      assert Ticks(calls) == own + rest;
      assert forall i :: 0 <= i < |rest| ==> Ticks(calls)[|own| + i] == rest[i];
      assert c.Poll? ==> Ticks(calls)[0] == c.tick;
      ActOnLease(d, c, init);
      BoundExactly(Act(d, c).0, init, calls[1..]);
    }
  }

  /** When the 16-bit timer judges a history rightly: exactly if no poll is late, or one of them falls
      outside all the windows that the wrap-around opens. */
  lemma JudgedRightly(d: Dev, init: nat, calls: seq<Call>)
    requires Handled(d, calls) && Undisturbed(d, calls) && d.bound
    requires d.boundtime == Jiffies(init) && NotBefore(init, Ticks(calls))
    ensures (After(d, calls).bound <==> Within(init, Ticks(calls)))
       <==> Within(init, Ticks(calls)) || exists i :: 0 <= i < |Ticks(calls)| && !InWindow(init, Ticks(calls)[i])
  {
    hide Act, Handles, Inits, After, Handled, Undisturbed;
    BoundExactly(d, init, calls);
    if Within(init, Ticks(calls)) {
      forall i | 0 <= i < |Ticks(calls)| ensures InWindow(init, Ticks(calls)[i]) {
        assert init <= Ticks(calls)[i] <= init + LEASE;
      }
    }
  }

  /** Frequent polls cannot slip through a later window. */
  lemma {:induction false} FrequentInWindow(init: nat, last: nat, ticks: seq<nat>)
    requires init <= last <= init + LEASE && Frequent(last, ticks)
    ensures NotBefore(init, ticks)
    ensures AllInWindow(init, ticks) <==> Within(init, ticks)
    decreases |ticks|
  {
    if ticks == [] {
    } else if ticks[0] <= init + LEASE {
      FrequentInWindow(init, ticks[0], ticks[1..]);
      assert forall i :: 0 < i < |ticks| ==> ticks[i] == ticks[1..][i - 1];
      assert InWindow(init, ticks[0]);
    } else {
      assert !InWindow(init, ticks[0]);
      FrequentGrows(ticks[0], ticks[1..]);
      assert forall i :: 0 < i < |ticks| ==> ticks[i] == ticks[1..][i - 1];
    }
  }

  lemma {:induction false} FrequentGrows(start: nat, ticks: seq<nat>)
    requires Frequent(start, ticks)
    ensures NotBefore(start, ticks)
    decreases |ticks|
  {
    if ticks == [] {
    } else {
      FrequentGrows(ticks[0], ticks[1..]);
      assert forall i :: 0 < i < |ticks| ==> ticks[i] == ticks[1..][i - 1];
    }
  }

  /** The lease is exact in spite of the wrap-around: after an INIT handled at tick `init`, with any
      traffic and polls less than 63536 ticks apart, the binding is cleared by the first poll more than
      2000 ticks later and by no earlier one. */
  lemma LeaseIsExact(d: Dev, init: nat, calls: seq<Call>)
    requires Handled(d, calls) && Undisturbed(d, calls)
    requires d.boundtime == Jiffies(init) && Frequent(init, Ticks(calls))
    ensures After(d, calls).bound <==> d.bound && Within(init, Ticks(calls))
  {
    hide After, Handled, Undisturbed;
    FrequentInWindow(init, init, Ticks(calls));
    BoundExactly(d, init, calls);
  }

  /** With one gap of 63536 ticks a late poll finds the binding alive. */
  lemma LeaseMissedAfterLongGap(d: Dev, rx1: seq<Frame>, rx2: seq<Frame>)
    requires d.bound && d.boundtime == Jiffies(0)
    ensures var calls := [Poll(LEASE, rx1, false), Poll(LEASE + 63536, rx2, false)];
      && Handled(d, calls) && After(d, calls).bound && Ticks(calls) == [LEASE, LEASE + 63536]
      && !Within(0, Ticks(calls))
  {
    hide Act;
    var p1, p2 := Poll(LEASE, rx1, false), Poll(LEASE + 63536, rx2, false);
    var calls := [p1, p2];
    assert calls[1..] == [p2] && [p2][1..] == [];
    assert Ticks([]) == [] && Ticks([p2]) == [LEASE + 63536] + [] == [LEASE + 63536];
    assert Ticks(calls) == [LEASE] + [LEASE + 63536] == [LEASE, LEASE + 63536];
    var e := Act(d, p1).0;
    assert Handled(e, [p2]) && Undisturbed(e, [p2]) by {
      assert Handled(Act(e, p2).0, []) && Undisturbed(Act(e, p2).0, []);
    }
    assert Handled(d, calls) && Undisturbed(d, calls);
    BoundExactly(d, 0, calls);
    assert Ticks(calls)[1] > LEASE;
  }

  // ----- Discovery -----

  ghost predicate IsHistory(d: Dev, now: nat, calls: seq<Call>)
    decreases |calls|
  {
    calls == [] ||
    (now <= calls[0].tick && Handles(d, calls[0]) && IsHistory(Act(d, calls[0]).0, calls[0].tick, calls[1..]))
  }

  /** The ticks at which a DISCOVER was sent. */
  ghost function Discovers(d: Dev, now: nat, calls: seq<Call>): seq<nat>
    requires IsHistory(d, now, calls)
    decreases |calls|
  {
    if calls == [] then []
    else
      var rest := Discovers(Act(d, calls[0]).0, calls[0].tick, calls[1..]);
      if Act(d, calls[0]).2 then [calls[0].tick] + rest else rest
  }

  ghost predicate Apart(ticks: seq<nat>, after: Option<nat>) {
    && (after.Some? ==> forall i :: 0 <= i < |ticks| ==> ticks[i] >= after.value + HZ)
    && forall i, j :: 0 <= i < j < |ticks| ==> ticks[j] >= ticks[i] + HZ
  }

  lemma ActKeepsShot(d: Dev, c: Call, sent: nat)
    requires Handles(d, c) && sent <= c.tick && d.lastshot == Jiffies(sent)
    ensures var (e, sends, discover) := Act(d, c);
      && e.lastshot == Jiffies(if sends then c.tick else sent)
      && (discover ==> sends && c.tick >= sent + HZ)
  {
    hide Datagram, Filled, Splice, ArpReply, EchoReply, BoundReply, BoundOutput, Turned, IsInit;
    SinceExact(c.tick, sent);
  }

  /** `discover` is the tick of the latest DISCOVER, `sent` that of the latest packet. */
  lemma {:induction false} DiscoversFrom(d: Dev, sent: nat, discover: Option<nat>, now: nat, calls: seq<Call>)
    requires IsHistory(d, now, calls) && sent <= now && d.lastshot == Jiffies(sent)
    requires discover.Some? ==> discover.value <= sent
    ensures Apart(Discovers(d, now, calls), discover)
    decreases |calls|
  {
    hide Act, Handles;
    if calls == [] {
    } else {
      var c := calls[0];
      var (e, sends, discovers) := Act(d, c);
      ActKeepsShot(d, c, sent);
      DiscoversFrom(e, if sends then c.tick else sent, if discovers then Some(c.tick) else discover,
                    c.tick, calls[1..]);
      DiscoversTail(e, c.tick, calls[1..]);
    }
  }

  /** Every DISCOVER of a history is sent at or after its start. */
  lemma {:induction false} DiscoversTail(d: Dev, now: nat, calls: seq<Call>)
    requires IsHistory(d, now, calls)
    ensures forall i :: 0 <= i < |Discovers(d, now, calls)| ==> Discovers(d, now, calls)[i] >= now
    decreases |calls|
  {
    hide Act, Handles;
    if calls == [] {
    } else {
      DiscoversTail(Act(d, calls[0]).0, calls[0].tick, calls[1..]);
    }
  }

  /** In every history of polls and packets since the last shot, with the button pressed or not, any
      two DISCOVERs are at least 200 ticks apart, however often the counter wraps around. */
  lemma DiscoversAreApart(d: Dev, now: nat, calls: seq<Call>)
    requires IsHistory(d, now, calls) && d.lastshot == Jiffies(now)
    ensures Apart(Discovers(d, now, calls), None)
  {
    DiscoversFrom(d, now, None, now, calls);
  }
}

# Model of avr-nrf

avr-nrf is the firmware of a bridge between USB, Ethernet and an nRF24L01+ radio, with a decoder that runs on a
Linux host. This project models the parts of both programs that carry logic and proves properties of the model in
Dafny 4.11. `dafny verify dfyconfig.toml` checks everything.

The source changes state in place, and so does the model. Its functions on buffers, rings and static variables are
methods of classes or methods on arrays. Each method is proved against a function on values (`Receive`, `Periodic`,
`HandleEp`, ...), and the results over runs are lemmas about those functions.

| file | what it models |
|---|---|
| `Machine.dfy`, `Subsequence.dfy` | machine integers, byte order, stores into buffers; order-preserving subsequences |
| `Glob.dfy` | the shell-style matcher of decode/opendevice.c against a declarative pattern language |
| `Checksum.dfy` | the Internet checksum of firmware/net/net.c, one-shot and streaming, against RFC 1071 |
| `Packets.dfy`, `Mcast.dfy` | Ethernet, ARP, IPv4, ICMP, UDP and IPv6 packets, built, checked and answered in place |
| `Fifo.dfy`, `Radio.dfy`, `Bridge.dfy` | the rings, the radio driver, and every interleaving of USB, radio and main loop |
| `Osc.dfy`, `Device.dfy`, `Host.dfy`, `Wire.dfy` | the two sides of the discover/init/bound/io protocol and the packets between them |
| `Lease.dfy`, `Protocol.dfy`, `Guarantees.dfy` | the timers under wrap-around; device, network and host as one system |
| `Endpoint.dfy`, `Usb.dfy`, `UsbSafety.dfy`, `Requests.dfy`, `Dfu.dfy`, `Flash.dfy`, `Controller.dfy` | USB transfers, request dispatch and endpoint interrupt, runs of the device, which requests are accepted and what they answer, downloads and uploads through the boot loader, and all of it on the firmware's own buffers |
| `Ksz8851.dfy` | the byte streams of the network chip's queues |

## Main results

- The matcher decides its pattern language for every text and every pattern whose bracket lists are closed. ABORT is
  returned only when no suffix of the text can match, which is what allows the loop of a star to stop early.
- Frames are conserved in both directions in every interleaving of USB receive, radio interrupts and main-loop
  steps; the transmitter flag stands for exactly one outstanding payload; no frame is stranded; the chip's mode
  follows the state word. Once the receiver is switched on the chip receives, in every run, whenever it does not
  transmit, until it is switched off.
- End to end, over a network that loses packets, what the host's caller gets is an increasing choice of the frames
  the radio received, byte for byte, and only while the host is bound to the device. While the host takes its
  binding to be alive, the device is bound to it. From every joint state a DISCOVER and its consequences restore
  the binding. A binding whose time is over is given up and renewed, and returns nothing until it is; after ten seconds
  of silence neither side is bound. With both sides bound and nothing lost the oldest frame reaches the caller, once.
- `usb_io` never finds its endpoint busy in any run, up to the first request that makes the program leave its
  buffer, if there is one.
- A USB request is accepted exactly if a table of types, numbers, values, lengths and states says so, and what the host
  sees of it and reads is stated for each.
- A download writes exactly the image, with requests repeated after their blocks, and an upload gives the host
  exactly what the flash yields. In every run blocks are written in order and nothing after a wrong block number, and
  each block is written exactly if it was not refused and the first event that decides completed its data. After an
  error and CLRSTATUS or ABORT a whole download succeeds again. All of it is true of the calls of the flash routines.
- The USB functions work on the endpoints' pointers and on the buffers themselves (`Controller`), and any run of
  them is a run of the specification (`Execute`).

## Where the code falls short

Each of these is stated as a lemma, with the exact condition where there is one.

- `checksum` of an odd number of bytes: where `int` has 16 bits, as on the AVR, `(0xFF & *buf) << 8` is negative for
  a last byte of 0x80 or more and the sum is off by one if it reaches 0x10000 (`Checksum.ChecksumMeetsRfc1071`,
  `Packets.EchoReplyVerifies`). On a machine with 32-bit `int` it is right.
- `build_udp_checksum_v6` skips the last byte of an odd length: the result verifies exactly if the length is even or
  that byte is zero (`Packets.Udp6Verifies`). The firmware only uses it on even lengths.
- After a gap of 63536 ticks between polls a binding that has expired can be taken for a live one
  (`Lease.LeaseMissedAfterLongGap`). The binding is there exactly as long as every poll finds the 16-bit difference
  at most 2000 (`Lease.BoundExactly`), so a history is judged rightly exactly if no poll is late or one of them falls
  outside all windows (`Lease.JudgedRightly`); polls less than 63536 ticks apart always are.
- An accepted download block is not always written. It is lost exactly if it was refused, or if a SETUP, a bus reset,
  a packet that is too long or an early stall comes before its data are complete (`Dfu.FateExactly`,
  `Dfu.AwaitedExactly`, `Dfu.WrittenExactly`). The host is not always told: a request repeated too early is
  accepted, and a block that is refused is taken for written when the host tries again
  (`Dfu.InterruptedBlockIsLost`, `Dfu.RefusedBlockIsLost`). The comment at firmware/usb/dfu.c:18-26 mentions none of it.
- Block numbers increase within a session exactly while they do not start over at 65536 (`Dfu.WritesInOrder`,
  `Dfu.NumbersStartOver`).
- Three kinds of vendor request can make the program reach past the eight bytes of its buffer: SPI writes whose
  eight-bit size wraps around, SPI reads of more than eight bytes, and the build string if its date has more than
  one character, which the date made by firmware/Makefile:106 has. The condition is exact
  (`UsbSafety.InBufferExactly`, with the smallest lengths in `UsbSafety.LengthsThatOverrun`). Nothing is claimed of
  a run from such a request on: the model ends there.
- A malformed BOUND binds the host too, for no time (`Host.BoundExactly`), and the time of a well-formed one is right
  exactly if 75 times the seconds granted are an `int` (`Host.ThreeQuarters`).
- SET_INTERFACE counts descriptors, not interfaces, and matches endpoint descriptors (`UsbSafety.WhatIsSelected`).
- When a second network frame of more than four bytes waits in the chip, it is thrown away, and the first is read and
  given up as well. No frame is lost exactly if every poll finds at most one that holds anything, in the first place
  and not too long (`Ksz8851.NoneLostExactly`).

## Assumptions

- The interrupt handlers and the `cli`..`sei` blocks are atomic steps. `nrf_rx_enable` in the main loop
  (firmware/main.c:229) runs with interrupts enabled; it is treated as one step.
- The chip reports TX_DS once per payload written to it, and not for a new payload before `nrf_irq` returns.
- On the network: packets between device and host are lost but neither reordered nor duplicated; one device, one
  host; other traffic reaches the device freely as long as it is not an INIT. The host's kernel delivers the
  datagrams of `Wire.Deliver` and sends INITs in packets of `Wire.Carries`.
- For the lease: a BOUND that is received at all is received less than three seconds after the INIT it answers,
  ticks are at least 5 ms apart, and the button is not pressed.
- An echo request that reaches `process_icmp` is complete in the buffer.
- A pattern's bracket lists are closed; otherwise the code reads past the pattern.
- SETUP arrives on the control endpoint only: it is the only one on which firmware/usb/atu2.c:192-222 enables it.
  `UsbSafety.StraySetupPanics` says what would happen otherwise.
- What the handlers read from chips and flash, and the verdicts of `gpio` and `flash_can_write`, are parameters.

## Model

| member | source | states |
|---|---|---|
| Glob.MatchFrom | decode/opendevice.c:27-74 | for closed patterns: 1 exactly if the text is in the pattern's language; ABORT only if no suffix of the text is |
| Glob.MatchOne | decode/opendevice.c:35-45 | a single-character token fails exactly on the characters it does not accept, and the walk ends on its last character |
| Glob.MatchList | decode/opendevice.c:57-70 | a bracket list fails exactly on the characters it does not accept, with a leading caret, ']' or '-' as the code reads them |
| Glob.MatchItems | decode/opendevice.c:65-67 | the loop over list items finds exactly the listed characters, ranges included, and stops on the closing bracket |
| Glob.MatchStar | decode/opendevice.c:46-56 | a star succeeds exactly if some suffix takes the rest of the pattern, otherwise no suffix can match |
| Glob.MatchPlaces | decode/opendevice.c:53-56 | trying places up to the first result other than FAILED loses no match |
| Glob.ShellStyleMatch | decode/opendevice.c:77-82 | 1 for a NULL pattern, else 1 exactly if the text is in the language |
| Glob.StarStar | decode/opendevice.c:47-49 | consecutive stars mean what one star means |
| Glob.AbortExtends | decode/opendevice.c:54-55 | an ABORT at one place rules out this place and all later ones |
| Glob.ProgressStarFails | decode/opendevice.c:53-56 | if no place after the star takes the rest, no suffix of the whole text matches |
| Glob.ProgressStarMatches | decode/opendevice.c:53-55 | a match of the rest at one place is a match of the text |
| Glob.ProgressExhausted | decode/opendevice.c:32-33 | at the end of the text a pattern that still demands a character matches no suffix: ABORT is right |
| Glob.RereadListed | decode/opendevice.c:65-67 | a range that is read as its first character followed by the range lists the same characters |
| Glob.ClassReadBack | decode/opendevice.h:48-52 | a written bracket list is read back as a list that accepts the same characters |
| Glob.TokenReadBack | decode/opendevice.h:48-52 | every written token is read back as an equivalent token |
| Glob.WrittenPattern | decode/opendevice.h:48-52 | a written pattern is closed and a text is in its language exactly if it is in the language of the tokens |
| Glob.DocumentedPattern | decode/opendevice.h:48-52 | every pattern the documented syntax can write is closed and means its tokens: star, '?', list, range, caret |
| Checksum.Checksum | firmware/net/net.c:36-57 | the loop over words and the folding loop compute the code's checksum without leaving 32 bits, on any 16-bit length |
| Checksum.FoldCarries | firmware/net/net.c:50-54 | the folding loop ends with the residue of the sum, 0 only for 0 |
| Checksum.TwoRounds | firmware/net/net.c:52-54 | two rounds of folding are enough for any 32-bit sum |
| Checksum.RoundKeepsFold | firmware/net/net.c:53 | a round keeps the residue |
| Checksum.FoldUnique | firmware/net/net.c:50-54 | the residue is the only 16-bit value that is 0 just for 0 and congruent modulo 65535 |
| Checksum.OnesSumIsFold | firmware/net/net.c:40-54 | adding with end-around carry at every word, as in RFC 1071, is folding the plain sum at the end |
| Checksum.ChecksumMeetsRfc1071 | firmware/net/net.c:36-57 | the result is the complement of the RFC 1071 sum if and only if the sign of the odd byte does not reach the sum |
| Checksum.CodeSumCongruent | firmware/net/net.c:46-49 | the code's sum is congruent to the true one exactly unless the sign of the odd byte reaches it |
| Checksum.OddMessageCounterexample | firmware/net/net.c:46-49 | a message of three bytes with a wrong checksum where int has 16 bits |
| Checksum.StoredVerifies | firmware/net/net.c:162-172 | a checksum stored in a zeroed field makes the whole verify exactly if its sum was congruent to the message's |
| Checksum.OneByteIsDetected | firmware/net/net.c:188-203 | no change of one byte of a verifying message goes undetected |
| Checksum.Streaming.constructor | firmware/net/net.c:12-15 | the sum starts with the type |
| Checksum.Streaming.Step | firmware/net/net.c:16-24 | the new sum is the old one plus the chunk's words, wrapping at 32 bits; an odd last byte is skipped |
| Checksum.Streaming.End | firmware/net/net.c:25-34 | the complement of the residue, folded in the variable itself |
| Checksum.StreamIsOneShot | firmware/net/net.c:11-57 | however a message is cut into even chunks, the streaming sum is that of the message, while it fits in 32 bits |
| Checksum.StreamChecksumIsOneShot | firmware/net/net.c:11-57 | and its result is what the one-shot routine returns |
| Packets.BuildEthernet | firmware/net/net.c:74-84 | exactly the 14 header bytes are stored, broadcast for a missing destination |
| Packets.SwapFields | firmware/net/net.c:92-98 | two fields are exchanged through a temporary and nothing else changes |
| Packets.ProcessArp | firmware/net/net.c:112-151 | a request for the address, and nothing else, is turned into its answer and sent |
| Packets.ArpReplyAnswers | firmware/net/net.c:138-150 | the answer names the hardware address of the IP address asked for, to the asker's own addresses |
| Packets.BuildIp | firmware/net/net.c:155-173 | the header with its checksum is stored, the type of service and identification left in the buffer kept |
| Packets.GetIpProto | firmware/net/net.c:188-203 | the protocol exactly for a verifying 20-byte header for this address, else 255 |
| Packets.BuiltHeaderAccepted | firmware/net/net.c:155-203 | every built header, whatever was left in the buffer, verifies and is accepted for its destination with its protocol |
| Packets.DamagedHeaderRejected | firmware/net/net.c:188-203 | an accepted header with one byte changed is accepted for no address |
| Packets.SwapKeepsHeader | firmware/net/net.c:205-212 | exchanging the addresses keeps a header verifying and makes its old source accept it |
| Packets.EvenChecksum | firmware/net/net.c:196-197 | on an even length the code's checksum is zero exactly if the data verify |
| Packets.ProcessIcmp | firmware/net/net.c:216-244 | an echo request is turned into its reply in place and sent in its whole length; anything else is ignored |
| Packets.EchoReplyAnswers | firmware/net/net.c:216-244 | addresses exchanged; code, identifier, sequence number and data identical; nothing else touched |
| Packets.EchoReplyVerifies | firmware/net/net.c:234-241 | for every length from 28 on, odd ones included: the header checksum verifies, the message checksum exactly unless the odd byte's sign reaches the sum |
| Packets.OddPingCounterexample | firmware/net/net.c:216-244 | an accepted ping of 43 bytes, its own checksum right, whose reply's checksum does not verify |
| Packets.BuildUdp | firmware/net/net.c:248-254 | ports, length and a zero checksum are stored |
| Packets.BuildIpv6 | firmware/net/net.c:175-186 | the header is stored; the low bits of the first word keep what was in the buffer |
| Packets.BuildUdpChecksumV6 | firmware/net/net.c:256-270 | the complement of the streaming sum over addresses, length, next header and datagram is stored |
| Packets.PseudoHeaderSum | firmware/net/net.c:258-265 | feeding length and next header as 16-bit words adds up to the 40-byte pseudo-header of RFC 2460 |
| Packets.Udp6IsRfc2460 | firmware/net/net.c:256-270 | for even lengths the result is the checksum of section 8.1 of RFC 2460 |
| Packets.Udp6Verifies | firmware/net/net.c:256-270 | a receiver's sum folds to 0xFFFF exactly if the length is even or the last byte zero |
| Mcast.ProcessMcast6 | firmware/net/base.c:249-285 | with a frame waiting, one packet is built and sent and the frame popped; otherwise nothing happens |
| Mcast.Mcast6Verifies | firmware/net/base.c:277-284 | a receiver finds addresses, length, a verifying UDP checksum and exactly the frame's message |
| Fifo.Ring.constructor | firmware/fifo.c:56-61 | an empty queue |
| Fifo.Ring.GetHead | firmware/fifo.c:18-24 | NULL exactly when the queue is full, else a slot that holds none of its frames |
| Fifo.Ring.Push | firmware/fifo.c:26-30 | the frame in the head slot joins the end of the queue |
| Fifo.Ring.GetTail | firmware/fifo.c:32-38 | NULL exactly when the queue is empty, else the slot of its oldest frame |
| Fifo.Ring.Pop | firmware/fifo.c:40-44 | the oldest frame leaves the queue |
| Fifo.Ring.Full | firmware/fifo.c:46-49 | exactly when the queue holds four frames |
| Fifo.Ring.Count | firmware/fifo.c:51-54 | the length of the queue |
| Fifo.Ring.Clear | firmware/fifo.c:56-61 | the queue becomes empty |
| Fifo.Ring.Fill | firmware/nrf24l01p.c:88-99 | bytes stored in the head slot are there afterwards and leave the queue as it is |
| Fifo.Ring.Fetch | firmware/nrf24l01p.c:101-112 | the bytes of a slot, in order |
| Radio.Driver.constructor | firmware/nrf24l01p.c:294-319 | both rings empty, no state bit set, CE low |
| Radio.Driver.Standby | firmware/nrf24l01p.c:149-156 | CE low, powered up, not receiving; nothing else changes |
| Radio.Driver.RxMode | firmware/nrf24l01p.c:158-163 | powered up, receiving, CE high |
| Radio.Driver.PowerDown | firmware/nrf24l01p.c:165-170 | CE low, powered down |
| Radio.Driver.WritePayload | firmware/nrf24l01p.c:101-112 | the oldest queued frame is written to the chip byte for byte |
| Radio.Driver.Transmit | firmware/nrf24l01p.c:203-211 | powered up as transmitter, the frame written, CE high |
| Radio.Driver.WakeQueue | firmware/nrf24l01p.c:213-226 | starts the transmitter on the oldest frame unless it runs or nothing is queued |
| Radio.Driver.RxEnable | firmware/nrf24l01p.c:228-235 | receives unless a transmission is running, and remembers to receive after it |
| Radio.Driver.RxDisable | firmware/nrf24l01p.c:237-245 | clears the receive ring and powers down unless a transmission is running |
| Radio.Driver.Rx | firmware/nrf24l01p.c:182-201 | stores the frame in the head slot exactly if pipe and width are right, and never changes the queue |
| Radio.Driver.Irq | firmware/nrf24l01p.c:247-288 | a received frame is queued if there is room, a finished transmission continues with the next frame or ends |
| Radio.Driver.ReceiveReady | firmware/nrf24l01p.c:254-263 | the frame joins the receive queue exactly if there is room and it is well-formed |
| Radio.Driver.TransmitDone | firmware/nrf24l01p.c:266-281 | the next frame is written, or the flag cleared and the mode chosen by the receive bit |
| Bridge.MainLoop.UsbIn | firmware/main.c:128-138 | a USB packet joins the transmit ring unless it is full, and the queue is woken |
| Bridge.MainLoop.ForwardToUsb | firmware/main.c:205-214 | with an idle endpoint the oldest received frame is copied out and popped, otherwise nothing changes |
| Bridge.StepKeepsInv | firmware/nrf24l01p.c:203-281 | every step keeps conservation in both directions, the transmitter flag and the chip's mode |
| Bridge.InterruptKeeps | firmware/nrf24l01p.c:247-288 | so does an interrupt with both causes |
| Bridge.EveryRun | firmware/nrf24l01p.c:203-281 | all of it holds in every run |
| Bridge.EveryRunFromReset | firmware/main.c:183 | and so in every run after the first standby |
| Bridge.HostToRadio | firmware/main.c:128-138 | in every run the payloads written to the chip are, in order, frames that USB has handed over; with the queued ones all of them if the ring is never full |
| Bridge.RadioToConsumer | firmware/main.c:205-214 | in every run what each consumer has taken is, in order, a subsequence of what the radio has received |
| Bridge.TakenByOne | firmware/main.c:205-214 | each frame taken off the receive ring is taken by exactly one of USB, network and the clearing of the ring |
| Bridge.ReceivedOnce | firmware/nrf24l01p.c:237-263 | in every run every frame received is taken by exactly one of them or still queued |
| Bridge.AcceptedFrom | firmware/main.c:130-133 | frames join the ring in the order in which they come, and only a full ring drops one |
| Bridge.QueueDrains | firmware/nrf24l01p.c:266-281 | as many transmit-done interrupts as frames are queued empty the ring; all accepted frames have then been written |
| Bridge.AfterTheQueue | firmware/nrf24l01p.c:266-281 | those and one more interrupt, for the payload outstanding, send everything accepted; the chip then receives if that is switched on and is powered down if not |
| Bridge.ReceivedExactly | firmware/nrf24l01p.c:182-263 | a received frame is queued exactly if it has sixteen bytes, comes on a pipe from 0 to 5 and finds fewer than four frames queued |
| Bridge.TakenExactly | firmware/main.c:205-214 | each consumer takes exactly the oldest frame when its turn comes, USB only with an idle endpoint |
| Bridge.ReceiveBitLasts | firmware/nrf24l01p.c:228-245 | in every run the bit that says whether to receive stays as it is until the receiver is switched |
| Bridge.ReceivesOnceEnabled | firmware/nrf24l01p.c:228-235 | in every run after the receiver is switched on, and until it is switched off, the chip is powered up and receives whenever no payload is outstanding |
| Bridge.SilentOnceDisabled | firmware/nrf24l01p.c:237-245 | the mirror law: after it is switched off the chip is idle whenever no payload is outstanding |
| Bridge.SwitchedDuringTransmission | firmware/nrf24l01p.c:228-281 | switching during a transmission changes nothing at once; when queue and payload are through, the chip receives or is powered down as it was switched |
| Bridge.SwitchedAtRest | firmware/nrf24l01p.c:228-245 | without a transmission the chip is switched at once, and switching off forgets the frames received |
| Bridge.FirstFrameIsSent | firmware/nrf24l01p.c:213-226 | a frame from USB that finds the transmitter idle is written to the chip at once |
| Bridge.ModeIsComplete | firmware/nrf24l01p.c:149-211 | the mode a function sets does not depend on the mode before it, and nothing else changes |
| Bridge.FirstStandby | firmware/main.c:183 | initialisation and the first standby lead to the state in which the runs begin |
| Device.StoreAddress | firmware/net/base.c:169-172 | the data area holds the address, its terminator and zeros; the length is padded to the next multiple of four |
| Device.StoreDiscover | firmware/net/base.c:169-175 | the data area holds exactly a DISCOVER message and zeros |
| Device.StoreIo | firmware/net/base.c:188-199 | the data area holds exactly an IO message with the frame and zeros |
| Device.StoreBound | firmware/net/base.c:119-133 | the data area holds exactly a BOUND message with timeout, address and hardware address |
| Device.BuildHeaders | firmware/net/base.c:177-179 | in front of a stored message the three headers make a complete datagram, and the rest of the buffer is zero |
| Device.NetBase.constructor | firmware/net/base.c:47-51 | not bound, both timers zero |
| Device.NetBase.ProcessPeriodicUdp | firmware/net/base.c:146-209 | bound, timers, ring, buffer and packet sent as one step of the device: expiry, DISCOVER once a second, IO for a waiting frame |
| Device.NetBase.Turn | firmware/net/base.c:100-102 | addresses and ports of the datagram are exchanged |
| Device.NetBase.ProcessUdp | firmware/net/base.c:82-144 | an INIT binds the device to its sender and is answered by a BOUND; anything else for the port is only turned round |
| Device.NetBase.ProcessUnicast | firmware/net/base.c:287-312 | dispatch on ARP, ICMP and UDP, whatever the destination's hardware address (firmware/net/net.c:100-103); a frame that is given up leaves its bytes in the buffer |
| Device.NetBase.NetPoll | firmware/net/base.c:315-329 | a received packet first, then the periodic part |
| Device.BuildReply | firmware/net/base.c:115-141 | the answer is built in the request's buffer, in the order of the code |
| Device.OtherTraffic | firmware/net/base.c:287-312 | packets that are not an INIT change nothing but the buffer |
| Device.PollSends | firmware/net/base.c:146-209 | a poll sends an IO exactly if the binding is alive and a frame waits, and this frame leaves the ring; a DISCOVER exactly without a live binding and 200 ticks after the last packet; bindings, timers and buffer are as stated |
| Device.UnicastBuffer | firmware/net/base.c:287-312 | a packet leaves its answer at the front of the buffer, or itself if it has none |
| Wire.DatagramDelivered | firmware/net/base.c:165-206 | every datagram the device builds is delivered to the host with the hardware and IP addresses it carries, with exactly the message |
| Wire.BoundHeader | firmware/net/base.c:135-139 | the answer's header, turned and shortened, verifies and is accepted by the sender of the INIT |
| Wire.BoundDelivered | firmware/net/base.c:100-143 | the answer to an INIT carries the sender's hardware address and is delivered to it with exactly a BOUND |
| Wire.InitBinds | firmware/net/base.c:82-144 | in every state an INIT binds the device to its sender, both addresses, from this tick on, and the BOUND reaches the sender |
| Wire.BindsExactly | firmware/net/base.c:82-113 | a packet binds the device, to its sender, exactly if it is an accepted UDP datagram to port 9999 with sixteen bytes that begin with the address of an INIT |
| Wire.StrayDatagram | firmware/net/base.c:96-113 | any other datagram to the port is left in the buffer with addresses and ports exchanged and not answered |
| Wire.PolledInit | firmware/net/base.c:315-329 | an INIT that is read alone binds, and a waiting frame goes to its sender in the same call; one that is given up only fills the buffer |
| Wire.ArpAnsweredExactly | firmware/net/net.c:112-151 | an ARP packet is answered exactly if its bytes ask for this IPv4 address over Ethernet; the answer is given byte by byte |
| Wire.EchoAnsweredExactly | firmware/net/net.c:216-244 | a complete ICMP message for the device is answered exactly if it is an echo request, with a reply of its length to its sender that carries its data; the header verifies, the message exactly unless the sign reaches its sum |
| Host.NetHost.constructor | decode/net.c:16-20 | no binding |
| Host.NetHost.NetSendInit | decode/net.c:60-75 | the datagram is exactly an INIT; the static buffer holds it and zeros |
| Host.NetHost.CheckIoMessage | decode/net.c:77-100 | format and both size limits are checked, then the blob is copied; the length field is left reversed in the buffer |
| Host.NetHost.CheckBoundMessage | decode/net.c:102-120 | the granted seconds as an int, 0 for a malformed message |
| Host.NetHost.GetFrame | decode/net.c:133-171 | state, buffer, result and datagrams sent for every datagram received |
| Host.NetHost.NetPoll | decode/net.c:173-206 | an expired binding is renewed and given up first; it waits without end only when there is no binding |
| Host.AddressesDiffer | decode/net.c:149-167 | the three messages are told apart, in the order in which the code compares |
| Host.OnDiscover | decode/net.c:149-151 | a DISCOVER is answered by an INIT to its sender and nothing else changes |
| Host.OnIo | decode/net.c:152-158 | a frame is returned byte for byte exactly if there is a binding to its sender; without one an INIT is sent |
| Host.OnBound | decode/net.c:159-164 | a BOUND binds the host to its sender for seven of the ten seconds |
| Host.IoExactly | decode/net.c:77-100 | what any datagram from the bound device that begins like an IO makes the host return: its blob, exactly if format and both lengths are right |
| Host.BoundExactly | decode/net.c:102-164 | any datagram that begins like a BOUND binds the host to its sender: for three quarters of the time granted if it has the format, else for no time |
| Host.OthersExactly | decode/net.c:149-170 | which of the other datagrams are answered by an INIT, and that the rest is ignored |
| Host.ThreeQuarters | decode/net.c:164 | the binding lasts three quarters of the seconds granted, rounded down, exactly if 75 times their number is an int and not negative |
| Host.UnboundReturnsNothing | decode/net.c:152-170 | without a binding nothing is returned for any datagram |
| Host.ExpiredCall | decode/net.c:184-205 | a call that finds the time over gives the binding up, sends an INIT to the device it was bound to and returns nothing; any other call leaves the binding as it is |
| Lease.SinceExact | firmware/net/base.c:162-166 | 16-bit subtraction gives the ticks that have passed modulo 65536 |
| Lease.LeaseIsExact | firmware/net/base.c:109-163 | with polls less than 63536 ticks apart and any traffic but an INIT, the binding is cleared by the first poll more than 2000 ticks after the INIT and by no earlier one |
| Lease.BoundExactly | firmware/net/base.c:162-163 | in every history of polls, pings and other traffic the binding is still there exactly if every poll found the 16-bit difference at most 2000 |
| Lease.JudgedRightly | firmware/net/base.c:162-163 | a history is judged rightly exactly if no poll is late or some poll falls outside every window the wrap-around opens |
| Lease.FrequentInWindow | firmware/net/base.c:162-163 | polls less than 63536 ticks apart cannot slip from one window to the next |
| Lease.ActOnLease | firmware/net/base.c:315-329 | one poll or packet keeps the time of the INIT, and clears the binding exactly outside the window |
| Lease.LeaseMissedAfterLongGap | firmware/net/base.c:162-163 | with a gap of 63536 ticks a late poll finds the binding alive |
| Lease.DiscoversAreApart | firmware/net/base.c:165-208 | in every history of polls, packets and the button, two DISCOVERs are at least 200 ticks apart |
| Lease.ActKeepsShot | firmware/net/base.c:208 | the last shot stands for the last packet of the periodic part, and a DISCOVER is sent no sooner than a second after it |
| Protocol.HostTakes | decode/net.c:133-171 | what each of the device's messages does to the host, its channel and its caller |
| Protocol.LinksKept | firmware/net/base.c:82-209 | every step keeps: packets under way are the device's messages, a bound host is bound to the device, a bound device to both addresses of the host |
| Protocol.PollEffect | firmware/net/base.c:146-209 | a poll sends an IO with the frame it takes off the ring exactly if the binding is alive and a frame waits, a DISCOVER exactly without a live binding a second after the last packet, and else nothing |
| Protocol.PollIsNetForward | firmware/net/base.c:188-199 | what the periodic part does to the ring is exactly that the network takes the oldest frame if an IO is sent |
| Protocol.OrderedKept | firmware/nrf24l01p.c:254-263 | every step keeps what was returned, what is under way and what is queued, in this order, a subsequence of what was received |
| Protocol.LossOrdered | decode/net.c:140-147 | so does the loss of any packet |
| Protocol.TimedKept | decode/net.c:159-192 | every step keeps the clocks of both sides in their relation to the last INIT |
| Protocol.LateMeansTenSeconds | firmware/net/base.c:162-163 | when a poll finds the lease over, ten seconds have passed since the INIT |
| Guarantees.GoodKept | firmware/net/base.c:315-329 | every step of device, network and host keeps the invariant |
| Guarantees.RunIsGood | firmware/net/base.c:315-329 | and so does every run |
| Guarantees.EndToEnd | firmware/nrf24l01p.c:254-263 | in every run the frames returned on the host are an increasing choice of the frames received by radio, byte for byte |
| Guarantees.AcceptedOnlyWhileBound | decode/net.c:152-158 | in every run a frame is returned only while the host holds a binding to the device |
| Guarantees.LeaseSafety | decode/net.c:184-192 | in every run, while the host is bound and its time not over, the device is bound to this host's IP and hardware addresses |
| Guarantees.DiscoverIsDue | firmware/net/base.c:159-181 | a poll sends a DISCOVER exactly without a live binding and a second after the last packet, stale bindings included |
| Guarantees.Recovery | firmware/net/base.c:82-181 | from every joint state, with arbitrary states in between, a DISCOVER, its INIT and its BOUND end with both sides bound to each other |
| Guarantees.RenewedOrGivenUp | decode/net.c:184-192 | after the start of a call the host is bound only with time left; a binding whose time is over is given up and one INIT goes on its way |
| Guarantees.RenewalSucceeds | decode/net.c:159-192 | when that INIT and its BOUND are delivered, the device is bound to the host and the host to the device for seven more seconds |
| Guarantees.NothingUntilBound | decode/net.c:152-164 | in every run an unbound host returns nothing until it receives a BOUND |
| Guarantees.NoFrameAfterExpiry | decode/net.c:184-192 | so no frame is returned after a binding has been found over and before the next BOUND |
| Guarantees.SilenceUnbinds | decode/net.c:184-192 | if nothing reaches either side for 2001 ticks, the device gives its binding up at its next poll and the host at the start of its next call |
| Guarantees.RadioJoins | firmware/nrf24l01p.c:254-263 | a frame received by radio joins the end of what is under way, unless four wait |
| Guarantees.LossTakesOne | decode/net.c:140-147 | the loss of a packet takes exactly its frame out of what is under way |
| Guarantees.FrameGetsThrough | firmware/net/base.c:188-206 | with both bindings alive and nothing lost, a poll and a receive return the oldest frame to the caller, and it has left the ring |
| Endpoint.EpDescr.constructor | firmware/usb/atu2.c:195-196 | an idle endpoint of the given size |
| Endpoint.EpDescr.Io | firmware/usb/usb.c:44-54 | panics exactly on a busy endpoint, and otherwise starts the transfer of the whole buffer |
| Endpoint.EpDescr.StorePacket | firmware/usb/atu2.c:97-114 | a packet is stored behind the bytes received so far, never past the end, and completes the buffer exactly when it fills it; one too long is refused |
| Endpoint.EpDescr.SendPacket | firmware/usb/atu2.c:117-129 | the next bytes of the buffer, at most a packet; only a packet that is not full ends the transfer |
| Endpoint.SendsBuffer | firmware/usb/atu2.c:158-171 | n bytes take exactly n/s + 1 packets, all full but the last, together the buffer; the callback runs once, after the last |
| Endpoint.ReceivesBuffer | firmware/usb/atu2.c:145-177 | for every sequence of packets: accepted while short, complete once exactly when the sizes add up, stalled without completion when one overshoots, stalled afterwards |
| Endpoint.IdleStalls | firmware/usb/atu2.c:147-148 | an endpoint that is not receiving stalls every OUT packet |
| Controller.UsbDevice.constructor | firmware/ep0.c:203-209 | all endpoints idle, the first interface's handlers installed |
| Controller.UsbDevice.GetDescriptor | firmware/usb/usb.c:57-83 | the size is read from the descriptor itself and cut to the length asked for; unknown descriptors are refused |
| Controller.UsbDevice.SelectInterface | firmware/usb/usb.c:135-155 | the walk along the chain selects by the first matching descriptor and refuses if there is none |
| Controller.UsbDevice.DispatchSetup | firmware/usb/usb.c:86-178 | every standard request is accepted, answered or refused as dispatched, all others go to the handler installed |
| Controller.UsbDevice.WriteOut | firmware/ep0.c:37-45 | the loop gives the chip exactly the first `size` bytes of the buffer |
| Controller.UsbDevice.AwaitBytes | firmware/ep0.c:121-123 | the rest of a request is received behind the bytes already stored, and is not started on a busy endpoint |
| Controller.UsbDevice.SpiWriteRequest | firmware/ep0.c:116-139 | checks in eight bits; the request's own bytes are stored first, then the rest is awaited or all of it written |
| Controller.UsbDevice.FormatNumber | firmware/ep0.c:66-70 | the loop from right to left leaves exactly the number's digits in front of the space |
| Controller.UsbDevice.FormatBuild | firmware/ep0.c:64-75 | the buffer holds '#', the number, a space and the date, and `size` is their length |
| Controller.UsbDevice.MySetup | firmware/ep0.c:49-169 | each vendor request's checks, buffer contents, transfer and effect |
| Controller.UsbDevice.Reply | firmware/ep0.c:100-114 | bytes read are stored in the buffer and exactly they are sent from it |
| Controller.UsbDevice.ReceiveBlock | firmware/usb/dfu.c:99-116 | a block that can be written and fits is awaited in the buffer, others are refused with a status |
| Controller.UsbDevice.TransmitBlock | firmware/usb/dfu.c:119-135 | what the flash yields, at most the length asked for, is sent from the buffer |
| Controller.UsbDevice.DnloadRequest | firmware/usb/dfu.c:151-182 | bad states refused, retransmissions accepted, wrong numbers made errors, length zero ends, else the block's turn |
| Controller.UsbDevice.UploadRequest | firmware/usb/dfu.c:183-208 | bad states refused, other numbers made errors, else a block is sent |
| Controller.UsbDevice.EpSetup | firmware/usb/atu2.c:77-94 | an accepted request to the device that started nothing is answered by an empty packet |
| Controller.UsbDevice.CallBack | firmware/usb/dfu.c:91-96 | what the buffer holds, stored and received bytes, goes to the SPI chip or the flash |
| Controller.UsbDevice.ReceiveControl | firmware/usb/atu2.c:97-114 | a packet is stored behind the others or refused; a completed buffer is acted on and acknowledged |
| Controller.UsbDevice.ReceiveData | firmware/usb/atu2.c:97-114 | a completed `inbuf` is the frame that `usb_in` gets |
| Controller.UsbDevice.Transmit | firmware/usb/atu2.c:158-171 | the next bytes of the buffer are sent; the address is enabled after the packet that answers SET_ADDRESS |
| Controller.UsbDevice.Interrupt | firmware/usb/atu2.c:132-178 | all flags of one endpoint in the code's order, with every way to stall |
| Controller.UsbDevice.BusReset | firmware/usb/atu2.c:228-238 | all endpoints idle, or a restart into the boot loader after a detach |
| Controller.UsbDevice.OfferFrame | firmware/main.c:205-214 | on an idle endpoint the frame is copied to `outbuf` and sent from there |
| Controller.UsbDevice.AskForFrame | firmware/main.c:216-219 | on an idle endpoint `inbuf` is given to the next frame |
| Controller.UsbDevice.Execute | firmware/usb/atu2.c:132-178 | over any run the variables and buffers stand for the state that the lemmas about runs speak of |
| UsbSafety.InBufferExactly | firmware/ep0.c:64-151 | how far a request reaches into the buffer, as the code computes it, is within it exactly under a condition on type, number and length |
| UsbSafety.LengthsThatOverrun | firmware/ep0.c:64-151 | the smallest length of each kind of request that leaves the buffer |
| UsbSafety.RequestHalts | firmware/usb/usb.c:86-178 | a request reaches past the buffer exactly if the vendor handler gets one that is not within it |
| UsbSafety.OneTransfer | firmware/usb/usb.c:86-178 | which requests start a transfer, by type, number, length, handler and download state; each starts at most one, and panics exactly on a busy control endpoint |
| UsbSafety.VendorOneTransfer | firmware/ep0.c:49-169 | the same for the vendor requests |
| UsbSafety.LoaderOneTransfer | firmware/usb/dfu.c:138-217 | the same for the boot loader's requests |
| UsbSafety.StepNoPanic | firmware/usb/atu2.c:132-178 | no interrupt, bus reset or main-loop step makes the BUG_ON fire; a step reaches past the buffer exactly with such a request |
| UsbSafety.NeverPanics | firmware/usb/usb.c:44-54 | in every run with SETUP on the control endpoint only, from every state of the endpoints, the BUG_ON does not fire up to the first request that leaves its buffer; there is none exactly if all are within it |
| UsbSafety.StraySetupPanics | firmware/usb/atu2.c:138-144 | why the previous row supposes it: a SETUP on another endpoint would make the BUG_ON fire exactly if the control endpoint is busy and the request is one that starts a transfer |
| UsbSafety.FramesAreWhole | firmware/main.c:216-219 | in every run every frame given to `usb_in` has sixteen bytes |
| UsbSafety.StepKeepsFrames | firmware/usb/atu2.c:132-178 | every step keeps that only the OUT endpoint receives frames, and whole ones |
| UsbSafety.TransmitRun | firmware/usb/atu2.c:158-171 | IN packets of one endpoint change nothing but this endpoint |
| UsbSafety.ReceiveRun | firmware/usb/atu2.c:145-153 | OUT packets of the data endpoint change nothing but this endpoint; the frames delivered and the stalls are exactly those of the transfer |
| UsbSafety.DescriptorIsRead | firmware/usb/usb.c:57-83 | whatever was going on, the host reads exactly the first wLength bytes of the descriptor, in full packets and a last one |
| UsbSafety.AddressAfterStatus | firmware/usb/atu2.c:53-65 | a new address is answered to only after the empty status packet |
| UsbSafety.StatusIsRead | firmware/usb/dfu_common.c:72-75 | the host reads the six status bytes with the current status and state |
| UsbSafety.FrameArrives | firmware/main.c:216-219 | a frame in any packets reaches `usb_in` whole and once |
| UsbSafety.FrameIsDelivered | firmware/main.c:205-214 | a frame handed to the IN endpoint is sent in one packet |
| UsbSafety.SpiBytesArrive | firmware/ep0.c:37-45 | the bytes in an SPI request and those received after it reach the chip in one piece, in order |
| UsbSafety.FindIsFirst | firmware/usb/usb.c:142-154 | the walk finds the first descriptor that matches, and fails only if none does |
| UsbSafety.ConfigIsAChain | firmware/descr.c:50-93 | the configuration is a chain of four descriptors that ends at its total length |
| UsbSafety.WhatIsSelected | firmware/usb/usb.c:142-154 | which index and value select which number: the DFU interface is number three, and endpoint descriptors match too |
| UsbSafety.InterfaceDecides | firmware/ep0.c:183-193 | after selecting the first interface vendor requests are answered and DFU requests refused, after selecting the DFU interface the reverse, and back |
| Requests.AcceptedExactly | firmware/usb/usb.c:86-178 | a table of the requests that are accepted, by type, number, value, length, handler and download state, and no other is |
| Requests.UserAccepted | firmware/ep0.c:49-182 | the part of the table for vendor and DFU requests |
| Requests.DnloadAccepted | firmware/usb/dfu.c:151-182 | the part for downloads: retransmissions, wrong numbers and the end are accepted, a block that cannot be received is not |
| Requests.SetupOutcome | firmware/usb/atu2.c:77-144 | what the host sees of a SETUP: a stall exactly if the request is refused, an empty packet exactly if it is accepted, to the device and moves no data, else a transfer |
| Requests.ConfigurationOne | firmware/usb/usb.c:118-121 | SET_CONFIGURATION is acknowledged exactly for configuration 1 |
| Requests.AnswerIsRead | firmware/usb/atu2.c:158-171 | an answer is read exactly, in packets |
| Requests.StandardAnswers | firmware/usb/usb.c:96-117 | GET_STATUS reads two zeros, GET_CONFIGURATION one |
| Requests.DescriptorsByValue | firmware/usb/usb.c:57-83 | which value reads the device, configuration, functional and each string descriptor, cut to the length asked for; all others are refused |
| Requests.VendorAnswers | firmware/ep0.c:57-158 | which register or chip each vendor read reads, and that its bytes are the answer |
| Requests.DigitsAreDecimal | firmware/ep0.c:66-70 | the build string shows the build number in decimal, without leading zeros |
| Requests.VendorWrites | firmware/ep0.c:81-163 | which register gets which value, the board identification, and the reset |
| Requests.SelectsExactly | firmware/ep0.c:183-193 | which values of SET_INTERFACE install which handler; any other is refused and changes nothing |
| Requests.ResetExactly | firmware/ep0.c:195-201 | a bus reset restarts the chip exactly after a detach, and else only makes the endpoints idle |
| Requests.QuietRun | firmware/usb/atu2.c:145-178 | no run without SETUP and bus reset changes handler, state or status of DFU, or stops |
| Requests.IntoTheLoader | firmware/ep0.c:171-201 | selecting the DFU interface, a detach and a bus reset restart the chip, whatever is transferred in between |
| Requests.NothingAfterTheEnd | firmware/ep0.c:81-84 | a reset request ends the program at once, and so does one that leaves the buffer: nothing else the interrupt finds is done |
| Requests.VendorFirst | firmware/ep0.c:203-209 | after power-up vendor requests are answered |
| Requests.StatesByNumber | firmware/usb/dfu_common.c:60-83 | GETSTATE and GETSTATUS answer with the current state under the number the DFU specification gives it, and the current status |
| Requests.DetachInLoader | firmware/usb/dfu.c:144-150 | in the boot loader a detach is acknowledged and nothing more |
| Dfu.StepKeepsInv | firmware/usb/dfu.c:91-217 | every step keeps: blocks written in order, each once, the awaited block the last one accepted, the next number in step |
| Dfu.RunKeepsInv | firmware/usb/dfu.c:91-217 | and so does every run |
| Dfu.WritesInOrder | firmware/usb/dfu.c:151-182 | in every run, whatever the host sends, blocks are written in the order accepted, at most once; numbers differ up to 65536 blocks and increase exactly while they do not start over |
| Dfu.NumbersStartOver | firmware/usb/dfu.c:179-181 | two blocks from number 65535 on: the second has number 0 |
| Dfu.AcceptedBlock | firmware/usb/dfu.c:178-182 | the block awaited is the one whose number the request carries, with its length |
| Dfu.RetransmissionWritesNothing | firmware/usb/dfu.c:161-164 | a repeated request changes nothing but the control endpoint |
| Dfu.NothingAfterWrongBlock | firmware/usb/dfu.c:165-171 | after a wrong number nothing is written, whatever the host sends, until CLRSTATUS or ABORT |
| Dfu.ErrorLasts | firmware/usb/dfu_common.c:76-80 | an error lasts until CLRSTATUS or ABORT |
| Dfu.ClearingEndsError | firmware/usb/dfu.c:209-212 | CLRSTATUS and ABORT are acknowledged in every state and lead to dfuIDLE without an error, and change nothing more |
| Dfu.ClearedStatus | firmware/usb/dfu_common.c:72-80 | the status read next is 0, 100, 0, 0, 2, 0 |
| Dfu.DownloadAfterError | firmware/usb/dfu.c:151-217 | after a wrong block, any run without clearing, and CLRSTATUS or ABORT, a whole download writes exactly the image, in a new session |
| Dfu.RefusedStatus | firmware/usb/dfu.c:99-182 | status and state after every kind of refused or wrong block |
| Dfu.UploadStatus | firmware/usb/dfu.c:119-208 | and after requests of an upload |
| Dfu.RunRuns | firmware/usb/dfu.c:138-217 | in no run does the boot loader stop |
| Dfu.LostForever | firmware/usb/dfu.c:151-182 | a block accepted, not written and no longer awaited is never written in its session |
| Dfu.FateExactly | firmware/usb/atu2.c:132-178 | an event leaves an awaited block awaited, completes it with the data sent, or loses it, each exactly under a condition known before: SETUP, bus reset, a packet too long, a stall before the end |
| Dfu.BlockFate | firmware/usb/dfu.c:91-182 | in every run the first event that decides says whether the block is written, and within its session it is written exactly then |
| Dfu.AwaitedExactly | firmware/usb/dfu.c:99-116 | a block in sequence is awaited exactly if the flash takes it and it has at most eight bytes, else lost |
| Dfu.WrittenExactly | firmware/usb/dfu.c:91-182 | from request to the end of any run, a block in sequence is written in its session exactly if it was not refused and the first event that decides completed it |
| Dfu.FlashForever | firmware/usb/dfu.c:91-96 | what has been written stays written in its session |
| Dfu.InterruptedBlockIsLost | firmware/usb/dfu.c:161-164 | in particular a block whose request is repeated before its data is lost though the request is accepted |
| Dfu.RefusedBlockIsLost | firmware/usb/dfu.c:179-182 | and a refused block leaves the state saying the download goes on, and is lost when the host repeats it |
| Dfu.BlockTaken | firmware/usb/dfu.c:151-182 | request, data, status packet and repeated requests write the block once and move to the next number |
| Dfu.DownloadWritesImage | firmware/usb/dfu.c:91-182 | a download of any number of blocks from any number on, with repeated requests, writes exactly the image |
| Dfu.ChunkRead | firmware/usb/dfu.c:119-135 | an upload request and two IN tokens give the host exactly what the flash yields |
| Dfu.UploadReadsFlash | firmware/usb/dfu.c:183-208 | an upload of any number of chunks gives the host exactly the bytes the flash yields, in order |
| Flash.StepMirrors | firmware/usb/dfu.c:91-217 | every step keeps: the history of sessions and blocks written is that of the calls of the flash routines |
| Flash.FlashFollows | firmware/usb/dfu.c:91-217 | and so does every run, so that what the rows above say of blocks written is said of the flash |
| Flash.FlashHoldsImage | firmware/usb/dfu.c:91-217 | from power-up, after anything that leaves the boot loader idle, a download starts the flash once more, writes exactly the image and ends it |
| Ksz8851.Chip.constructor | firmware/ksz8851snl.c:32 | nothing sent yet |
| Ksz8851.Chip.WriteFifo | firmware/ksz8851snl.c:68-93 | the chip's queue is extended by exactly this frame with the next identification, length and padding |
| Ksz8851.FramesAreFound | firmware/ksz8851snl.c:68-93 | from the byte stream alone the chip finds exactly the frames written, whatever their lengths |
| Ksz8851.Chip.ReadPacket | firmware/ksz8851snl.c:150-185 | the queue is emptied; the first frame is stored if it fits, and the result is what the last frame that is not empty leaves |
| Ksz8851.HandedExactly | firmware/ksz8851snl.c:160-184 | a frame is handed on exactly if it is first, fits and is the only one waiting that is not empty, and then whole |
| Ksz8851.PollLoses | firmware/ksz8851snl.c:160-184 | one poll hands on all that waits exactly if it finds at most one frame, in the first place and not too long |
| Ksz8851.NoneLostExactly | firmware/ksz8851snl.c:150-185 | over any number of polls no frame is lost exactly if that is so at each of them |
| Machine.MemCpy | firmware/usb/atu2.c:105-106 | a loop of byte stores overwrites exactly the window |
| Subsequence.SubseqChoice | decode/net.c:133-171 | a subsequence is an increasing choice of positions with equal elements |

## Left out

- Glob.MatchFrom: patterns with an unclosed bracket list, which the code reads past the end of.
- Packets.ProcessIcmp: an echo request whose total length is under 28 or reaches past the buffer; the code does not check it.
- Packets.BuildUdpChecksumV6: the rule that a zero result is sent as 0xFFFF, which the code does not implement.
- UsbSafety.NeverPanics: what happens after a request that reaches past the buffer; the model ends there, at the request rather than at the first byte outside.
- Controller.UsbDevice.MySetup: the bytes exchanged with the chips while a reply is read, and what `gpio` does with the pins it is given.
- Controller.UsbDevice.DnloadRequest: the flag `did_download`, which nothing reads.
- Controller.UsbDevice.GetDescriptor: constants and the DFU status record are sent from a copy made at the request, not from where they are kept.
- Controller.UsbDevice.Interrupt: a SETUP on a data endpoint, which is not enabled there.
- Guarantees.LeaseSafety: the button, several hosts, and BOUNDs that take three seconds or more are outside the assumptions above.
- Guarantees.EndToEnd: a network that reorders or duplicates packets.
- Bridge.EveryRun: the vendor request that writes radio registers behind the driver's back.
- Host.NetHost.NetPoll: errors of `recvfrom` and `select`, and the port a datagram is received on, which is the socket's.
- Register-level hardware: SPI and register addressing, PLL, watchdog, EEPROM, LEDs, delays, suspend.
- `process_mcast` and decode/mcast.c: the same message to an IPv4 group, without any state of its own; the mode variable never selects multicast.
- `usbOpenDevice`, sockets, serial port and the printing of decoded frames: plumbing around the functions modelled here.
- String descriptors' contents, which are parameters, and the boot loader's device descriptor, whose constants are not in the repository.
- The order in which `USB_COM_vect` visits endpoints: an interrupt for each endpoint is a step of its own, in any order.
- Status stages of control transfers as section 8.5.3 of the USB 2.0 specification wants them: the code stalls OUT packets when it is not receiving.
- DFU error and short-upload states as the DFU 1.1 specification wants them: firmware/usb/dfu.c:179-182 and 205-208 overwrite them, and the model follows the code.

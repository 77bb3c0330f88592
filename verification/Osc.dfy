/** The OSC messages of the protocol between firmware/net/base.c and decode/net.c. */
module Osc {
  import opened Machine
  import opened Fifo
  import opened Packets

  const MSG_DISCOVER: seq<uint8> := [47, 110, 114, 102, 47, 100, 105, 115, 99, 111, 118, 101, 114] // "/nrf/discover"
  const MSG_IO: seq<uint8> := [47, 110, 114, 102, 47, 105, 111]                                    // "/nrf/io"
  const MSG_INIT: seq<uint8> := [47, 110, 114, 102, 47, 105, 110, 105, 116]                        // "/nrf/init"
  const MSG_BOUND: seq<uint8> := [47, 110, 114, 102, 47, 98, 111, 117, 110, 100]                   // "/nrf/bound"

  const COMMA: uint8 := 44
  const FMT_IO: seq<uint8> := [COMMA, 98, 0, 0]                                                    // ",b"
  const FMT_BOUND: seq<uint8> := [COMMA, 105, 105, 98, 0, 0, 0, 0]                                 // ",iib"

  /** Seconds for which a binding is granted. */
  const NET_TIMEOUT: uint8 := 10

  datatype Message = Discover | Init | Io(frame: Frame) | Bound(ip: Ip4, mac: Mac)

  /** An address pattern, terminated and padded to a multiple of four bytes. */
  function Padded(s: seq<uint8>): (r: seq<uint8>)
    ensures |r| % 4 == 0 && |s| < |r| <= |s| + 4
  {
    s + Zeros(4 - |s| % 4)
  }

  function Encode(m: Message): (r: seq<uint8>)
    ensures |r| == match m case Discover => 20 case Init => 16 case Io(_) => 32 case Bound(_, _) => 40
  {
    match m
    case Discover => Padded(MSG_DISCOVER) + [COMMA, 0, 0, 0]
    case Init => Padded(MSG_INIT) + [COMMA, 0, 0, 0]
    case Io(frame) => Padded(MSG_IO) + FMT_IO + [0, 0, 0, PAYLOAD_SIZE] + frame
    case Bound(ip, mac) =>
      Padded(MSG_BOUND) + FMT_BOUND + [0, 0, 0, NET_TIMEOUT] + ip + [0, 0, 0, 6] + mac + [0, 0]
  }
}

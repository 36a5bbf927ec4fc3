/** What the two programs of Program_3 exchange, and what a poll can report. */
module Packets {
  import opened Bytes

  // Flag octets (Program_3/networks.h).
  const FLAG_DATA_PACKET := 3
  const FLAG_RR := 5
  const FLAG_SREJ := 6
  const FLAG_EOF := 9
  const FLAG_END_CONNECTION := 10

  datatype Packet = Packet(flag: byte, seqNum: nat, payload: seq<byte>)

  /** The outcome of `pollCall` followed, where the program does so, by `recv_buf`. */
  datatype Poll =
    | Timeout
    | Corrupt            // recv_buf returned CRC_ERROR
    | Got(packet: Packet)

  function DataPacket(s: nat, data: seq<byte>): Packet {
    Packet(FLAG_DATA_PACKET, s, data)
  }

  function RequestReady(s: nat): Packet {
    Packet(FLAG_RR, s, Be32(s))
  }

  function SelectiveReject(s: nat): Packet {
    Packet(FLAG_SREJ, s, Be32(s))
  }

  function EndOfFile(): Packet {
    Packet(FLAG_EOF, 0, [])
  }

  function EndConnection(): Packet {
    Packet(FLAG_END_CONNECTION, 0, [])
  }
}

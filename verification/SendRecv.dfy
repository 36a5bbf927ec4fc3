/** The packet codec of Program_3 (sendrecvpdu.c): 4 bytes of sequence number, 2 of checksum, the
    flag, and the payload. */
module SendRecv {
  import opened Bytes
  import opened Checksum

  const HEADER_SIZE := 7
  const CRC_ERROR := -1
  const MEMBUFSIZE := 1800

  /** Offset of the checksum field. */
  const FIELD := 4

  function FromBe32(b: seq<byte>): nat
    requires |b| == 4
  {
    var b0: int, b1: int, b2: int := b[0], b[1], b[2];
    0x100_0000 * b0 + 0x1_0000 * b1 + 0x100 * b2 + b[3]
  }

  /** A 32-bit pattern read through a C `int`. */
  function AsInt(v: nat): int {
    if v < 0x8000_0000 then v else v - 0x1_0000_0000
  }

  function Frame(s: nat, field: seq<byte>, flag: byte, payload: seq<byte>): seq<byte> {
    Be32(s) + field + [flag] + payload
  }

  /** The bytes `sendBuf` hands to the network. */
  function Encode(o: Order, s: nat, flag: byte, payload: seq<byte>): seq<byte> {
    Frame(s, Store(o, Cksum(o, Frame(s, [0, 0], flag, payload))), flag, payload)
  }

  /** `recv_buf` accepts the first `n` bytes of its buffer. */
  predicate Accepts(o: Order, b: seq<byte>, n: nat)
    requires 6 <= |b| && n <= |b|
  {
    FieldMatches(o, b, n, FIELD)
  }

  /** `ntohl` reads network order, so it undoes `htonl`. */
  lemma FromBe32IsBigEndian(b: seq<byte>)
    requires |b| == 4
    ensures FromBe32(b) == BigEndian(b)
  {
    FourOctets(b);
  }

  lemma Be32RoundTrip(v: nat)
    requires v < 0x1_0000_0000
    ensures FromBe32(Be32(v)) == v
  {
    FromBe32IsBigEndian(Be32(v));
    Be32IsBigEndian(v);
  }

  /** A C `int` holds the one value of its range that is congruent to the pattern. */
  lemma AsIntIsUnique(v: nat, x: int)
    requires v < 0x1_0000_0000
    ensures x == AsInt(v) <==> -0x8000_0000 <= x < 0x8000_0000 && (x - v) % 0x1_0000_0000 == 0
  {
  }

  /** Number, checksum, flag and payload lie where the receiver looks for them. */
  lemma FrameLayout(o: Order, s: nat, flag: byte, payload: seq<byte>)
    requires s < 0x1_0000_0000
    ensures var e := Encode(o, s, flag, payload);
            && |e| == HEADER_SIZE + |payload| && BigEndian(e[..4]) == s
            && e[6] == flag && e[HEADER_SIZE..] == payload
            && Word(o, e[FIELD], e[FIELD + 1]) == Cksum(o, e[..4] + [0, 0] + e[6..])
  {
    EncodeFields(o, s, flag, payload);
    Be32IsBigEndian(s);
    var e := Encode(o, s, flag, payload);
    assert e[6..] == [flag] + payload;
    assert e[..4] + [0, 0] + e[6..] == Frame(s, [0, 0], flag, payload);
  }

  lemma EncodeFields(o: Order, s: nat, flag: byte, payload: seq<byte>)
    ensures var e := Encode(o, s, flag, payload);
            && |e| == HEADER_SIZE + |payload|
            && e[..4] == Be32(s) && e[6] == flag && e[7..] == payload
            && Word(o, e[4], e[5]) == Cksum(o, Frame(s, [0, 0], flag, payload))
            && Zeroed(e, FIELD) == Frame(s, [0, 0], flag, payload)
  {
  }

  /** Whatever is sent is accepted, on a host of either byte order, and decodes to the same flag, payload
      and sequence number, which the receiver's C `int` holds up to 2^31 - 1. */
  lemma ReceiveUndoesSend(sender: Order, receiver: Order, s: nat, flag: byte, payload: seq<byte>, rest: seq<byte>)
    requires s < 0x1_0000_0000
    ensures var e := Encode(sender, s, flag, payload);
            && Accepts(receiver, e + rest, |e|)
            && AsInt(FromBe32((e + rest)[..4])) == (if s < 0x8000_0000 then s else s - 0x1_0000_0000)
            && (e + rest)[6] == flag
            && |e| - HEADER_SIZE == |payload| && (e + rest)[HEADER_SIZE..|e|] == payload
  {
    var e := Encode(sender, s, flag, payload);
    EncodeFields(sender, s, flag, payload);
    Be32RoundTrip(s);
    var b := e + rest;
    assert b[..4] == e[..4] && b[HEADER_SIZE..|e|] == e[7..];
    assert Zeroed(b, FIELD)[..|e|] == Zeroed(e, FIELD);
    assert FieldMatches(sender, b, |e|, FIELD);
    VerdictIgnoresOrder(b, |e|, FIELD);
  }

  /** Sent packets are never mistaken for one another. */
  lemma EncodeInjective(o: Order, s: nat, flag: byte, payload: seq<byte>, s': nat, flag': byte, payload': seq<byte>)
    requires s < 0x1_0000_0000 && s' < 0x1_0000_0000
    requires Encode(o, s, flag, payload) == Encode(o, s', flag', payload')
    ensures s == s' && flag == flag' && payload == payload'
  {
    EncodeFields(o, s, flag, payload);
    EncodeFields(o, s', flag', payload');
    Be32RoundTrip(s);
    Be32RoundTrip(s');
  }

  /** A sent packet changed in one 16-bit word is rejected, unless a word outside the checksum field
      turned from 0x0000 to 0xFFFF or back while some other word of the packet is not zero. */
  lemma OneWordCorruption(o: Order, s: nat, flag: byte, payload: seq<byte>, b: seq<byte>, i: nat)
    requires var e := Encode(o, s, flag, payload);
             SameButWord(e, b, i) && b != e
    ensures var e := Encode(o, s, flag, payload);
            Accepts(o, b, |b|) <==>
            && i != 2
            && OppositeZeros(WordAt(o, e, i), WordAt(o, b, i))
            && WordSum(o, Frame(s, [0, 0], flag, payload)) > WordAt(o, e, i)
  {
    var e := Encode(o, s, flag, payload);
    EncodeFields(o, s, flag, payload);
    assert Zeroed(e, FIELD)[..|e|] == Zeroed(e, FIELD);
    OneWordChange(o, e, b, FIELD, i);
  }

  /** In particular any change confined to one byte, so any single flipped bit, is rejected. */
  lemma OneByteCorruption(o: Order, s: nat, flag: byte, payload: seq<byte>, k: nat, v: byte)
    requires k < |Encode(o, s, flag, payload)| && v != Encode(o, s, flag, payload)[k]
    ensures !Accepts(o, Encode(o, s, flag, payload)[k := v], HEADER_SIZE + |payload|)
  {
    var e := Encode(o, s, flag, payload);
    var b := e[k := v];
    EncodeFields(o, s, flag, payload);
    assert SameButWord(e, b, k / 2);
    OneByteOfWord(o, e, k, v);
    OneWordCorruption(o, s, flag, payload, b, k / 2);
  }

  /** One byte does not turn 0x0000 into 0xFFFF. */
  lemma OneByteOfWord(o: Order, e: seq<byte>, k: nat, v: byte)
    requires k < |e|
    ensures !OppositeZeros(WordAt(o, e, k / 2), WordAt(o, e[k := v], k / 2))
  {
  }

  // ---------------------------------------------------------------- the two C functions

  lemma FrameFromParts(b: seq<byte>, s: nat, field: seq<byte>, flag: byte, payload: seq<byte>)
    requires |b| == HEADER_SIZE + |payload| && |field| == 2
    requires b[0] == Be32(s)[0] && b[1] == Be32(s)[1] && b[2] == Be32(s)[2] && b[3] == Be32(s)[3]
    requires b[4] == field[0] && b[5] == field[1] && b[6] == flag && b[7..] == payload
    ensures b == Frame(s, field, flag, payload)
  {
    assert b[..4] == Be32(s) && b[4..6] == field;
    assert b == b[..4] + b[4..6] + [b[6]] + b[7..];
  }

  /** `sendBuf`, returning the bytes passed to `SendviaErrLibrary`. */
  method SendBuf(o: Order, memBuf: array<byte>, buf: seq<byte>, flag: byte, seqNum: nat) returns (sent: seq<byte>)
    requires memBuf.Length == MEMBUFSIZE && |buf| + HEADER_SIZE <= MEMBUFSIZE
    modifies memBuf
    ensures sent == Encode(o, seqNum, flag, buf)
  {
    var sendingLen := |buf| + HEADER_SIZE;
    forall k | 0 <= k < memBuf.Length {
      memBuf[k] := 0;
    }
    forall k | 0 <= k < |buf| {
      memBuf[7 + k] := buf[k];
    }
    var n := Be32(seqNum);
    memBuf[0], memBuf[1], memBuf[2], memBuf[3] := n[0], n[1], n[2], n[3];
    memBuf[4], memBuf[5] := 0, 0;
    memBuf[6] := flag;
    assert memBuf[..sendingLen][7..] == buf;
    FrameFromParts(memBuf[..sendingLen], seqNum, [0, 0], flag, buf);
    assert memBuf[0..0 + sendingLen] == memBuf[..sendingLen];
    var checksum := InCksum(o, memBuf, 0, sendingLen);
    var field := Store(o, checksum);
    memBuf[4], memBuf[5] := field[0], field[1];
    sent := memBuf[..sendingLen];
    assert sent[7..] == buf;
    FrameFromParts(sent, seqNum, field, flag, buf);
  }

  /** What an accepted packet leaves in the caller's buffer: its payload, followed by the seven bytes
      that lie behind the packet; a packet without payload leaves it alone. */
  function Received(buf: seq<byte>, arrived: seq<byte>, recvLen: nat): (r: seq<byte>)
    requires recvLen > HEADER_SIZE ==> recvLen + HEADER_SIZE <= |arrived| && recvLen <= |buf|
    ensures |r| == |buf|
    ensures recvLen > HEADER_SIZE ==> r[..recvLen - HEADER_SIZE] == arrived[HEADER_SIZE..recvLen]
    ensures forall k :: 0 <= k < |buf| && (recvLen <= HEADER_SIZE || recvLen <= k) ==> r[k] == buf[k]
    ensures forall k :: recvLen > HEADER_SIZE && 0 <= k < recvLen ==> r[k] == arrived[HEADER_SIZE + k]
  {
    if recvLen <= HEADER_SIZE then buf
    else arrived[HEADER_SIZE..recvLen] + arrived[recvLen..recvLen + HEADER_SIZE] + buf[recvLen..]
  }

  /** `recv_buf` on the `recvLen` bytes that arrived in `dataBuf`. `flag` and `seqNum` keep the values
      they had when the checksum is wrong. A packet one byte short of a header returns -1 as well. */
  method RecvBuf(o: Order, dataBuf: array<byte>, recvLen: nat, buf: array<byte>, flag0: byte, seqNum0: int)
    returns (dataLen: int, flag: byte, seqNum: int)
    requires dataBuf != buf && dataBuf.Length >= HEADER_SIZE && recvLen <= dataBuf.Length && recvLen <= 0x1_0000
    requires recvLen > HEADER_SIZE ==> recvLen + HEADER_SIZE <= dataBuf.Length && recvLen <= buf.Length
    modifies dataBuf, buf
    ensures dataBuf[..] == Zeroed(old(dataBuf[..]), FIELD)
    ensures
      if Accepts(o, old(dataBuf[..]), recvLen) then
        && dataLen == recvLen - HEADER_SIZE
        && flag == old(dataBuf[6])
        && seqNum == AsInt(FromBe32(old(dataBuf[..4])))
        && buf[..] == Received(old(buf[..]), old(dataBuf[..]), recvLen)
      else
        dataLen == CRC_ERROR && flag == flag0 && seqNum == seqNum0 && buf[..] == old(buf[..])
  {
    ghost var arrived := dataBuf[..];
    flag, seqNum := flag0, seqNum0;
    var rxchecksum := Word(o, dataBuf[4], dataBuf[5]);
    dataBuf[4], dataBuf[5] := 0, 0;
    assert dataBuf[..] == Zeroed(arrived, FIELD);
    assert dataBuf[0..0 + recvLen] == Zeroed(arrived, FIELD)[..recvLen];
    var computed := InCksum(o, dataBuf, 0, recvLen);
    if computed != rxchecksum {
      return CRC_ERROR, flag, seqNum;
    }
    flag := dataBuf[6];
    assert dataBuf[..4] == arrived[..4];
    seqNum := AsInt(FromBe32(dataBuf[..4]));
    dataLen := recvLen - HEADER_SIZE;
    if dataLen > 0 {
      forall k | 0 <= k < recvLen {
        buf[k] := dataBuf[HEADER_SIZE + k];
      }
    }
    assert buf[..] == Received(old(buf[..]), arrived, recvLen);
  }
}

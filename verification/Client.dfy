/** The sender of the file transfer (Program_3/udpClient.c).

    `ClientState` is the value of the program between two turns of its main loop, the functions
    are its three state handlers on that value, and class `Client` runs them in place. */
module UdpClient {
  import opened Bytes
  import opened Packets
  import opened Windowing

  /** `RET_FILE_DATA`, `RET_SERVER_DATA`, `RET_ACK_DATA`, and the two ways out: `exit(0)` from
      `exit_client` and `exit(1)` after too many retries. */
  datatype Mode = FileData | ServerData | AckData | Exited(success: bool)

  datatype ClientState = ClientState(
    mode: Mode, newSn: nat, previousSn: nat, retryCount: nat, window: Win,
    input: seq<byte>, pos: nat, bufSize: nat)
  {
    predicate Valid() {
      window.Valid() && pos <= |input|
    }
  }

  /** `checkArgs`: a buffer size out of range becomes 1400. */
  function BufferSize(argument: int): (size: nat)
    ensures 1 <= size <= 1400
    ensures size == argument || (size == 1400 && (argument < 1 || argument > 1400))
  {
    if argument < 1 || argument > 1400 then 1400 else argument
  }

  function Start(input: seq<byte>, bufSize: nat, window: Win): ClientState {
    ClientState(FileData, 1, 0, 0, window, input, 0, bufSize)
  }

  function FileStep(c: ClientState): (ClientState, seq<Packet>)
    requires c.Valid()
  {
    if c.window.current == c.window.upper then
      (c.(mode := AckData), [])
    else
      var n := Min(c.bufSize, |c.input| - c.pos);
      if n == 0 then
        (c.(mode := AckData, previousSn := c.newSn), [])
      else
        var data := c.input[c.pos..c.pos + n];
        var w := Insert(c.window, data, c.newSn);
        (c.(mode := ServerData, window := w.(current := w.current + 1), pos := c.pos + n, newSn := c.newSn + 1,
            previousSn := if n < c.bufSize then c.newSn + 1 else c.previousSn),
         [DataPacket(c.newSn, data)])
  }

  function ResponseStep(c: ClientState, poll: Poll): (ClientState, seq<Packet>)
    requires c.Valid()
  {
    match poll
    case Timeout => (c.(mode := FileData), [])
    case Corrupt => (c.(mode := AckData), [])
    case Got(p) =>
      if p.flag == FLAG_SREJ then
        (c.(mode := ServerData), [DataPacket(p.seqNum, Load(c.window, p.seqNum))])
      else if p.flag == FLAG_RR && p.seqNum == c.previousSn then
        (c.(mode := Exited(true)), [EndOfFile(), EndConnection()])
      else if p.flag == FLAG_RR && p.seqNum >= c.window.lower then
        (c.(mode := ServerData, window := Move(c.window, p.seqNum)), [])
      else
        (c.(mode := ServerData), [])
  }

  /** In this state a poll that reports a packet does not read it. */
  function AckStep(c: ClientState, poll: Poll): (ClientState, seq<Packet>)
    requires c.Valid()
  {
    if c.retryCount > 10 then
      (c.(mode := Exited(false)), [])
    else if poll.Timeout? then
      var d := c.(mode := AckData, retryCount := c.retryCount + 1);
      if c.previousSn == c.window.lower then
        (d, [])
      else
        (d, [DataPacket(c.window.lower, Load(c.window, c.window.lower))])
    else
      (c.(mode := ServerData, retryCount := 0), [])
  }

  /** One turn of the main loop. */
  function Step(c: ClientState, poll: Poll): (r: (ClientState, seq<Packet>))
    requires c.Valid() && !c.mode.Exited?
    ensures r.0.Valid() && r.0.input == c.input && r.0.bufSize == c.bufSize && r.0.window.size == c.window.size
  {
    if c.mode == FileData then FileStep(c)
    else if c.mode == ServerData then ResponseStep(c, poll)
    else AckStep(c, poll)
  }

  class Client {
    const input: seq<byte>
    const bufSize: nat
    const window: CircularQWindow
    var pos: nat
    var newSn: nat
    var previousSn: nat
    var retryCount: nat

    ghost predicate Valid()
      reads this, window, window.ptr, window.occupied
    {
      window.Valid() && pos <= |input|
    }

    ghost function View(mode: Mode): ClientState
      reads this, window, window.ptr, window.occupied
    {
      ClientState(mode, newSn, previousSn, retryCount, window.View(), input, pos, bufSize)
    }

    constructor (input: seq<byte>, bufferArgument: int, windowSize: nat, ptr: array<Slot>, occupied: array<bool>)
      requires 1 <= windowSize == ptr.Length == occupied.Length
      ensures Valid() && fresh(window) && window.ptr == ptr && window.occupied == occupied
      ensures View(FileData) == Start(input, BufferSize(bufferArgument), Reset(windowSize, ptr[..], occupied[..]))
    {
      this.input, bufSize := input, BufferSize(bufferArgument);
      window := new CircularQWindow(windowSize, ptr, occupied);
      pos, newSn, previousSn, retryCount := 0, 1, 0, 0;
    }

    method SendFileBuffer() returns (ret: Mode, sent: seq<Packet>)
      requires Valid()
      modifies this, window, window.ptr, window.occupied
      ensures Valid()
      ensures (View(ret), sent) == FileStep(old(View(FileData)))
    {
      sent := [];
      if window.current == window.upper {
        return AckData, sent;
      }
      var n := Min(bufSize, |input| - pos);
      var buf := input[pos..pos + n];
      pos := pos + n;
      if n == 0 {
        previousSn := newSn;
        ret := AckData;
      } else {
        window.InsertIntoWindow(buf, newSn);
        window.current := window.current + 1;
        sent := [DataPacket(newSn, buf)];
        newSn := newSn + 1;
        if n < bufSize {
          previousSn := newSn;
        }
        ret := ServerData;
      }
    }

    method ExitClient() returns (ret: Mode, sent: seq<Packet>)
      ensures ret == Exited(true) && sent == [EndOfFile(), EndConnection()]
    {
      ret, sent := Exited(true), [EndOfFile()];
      sent := sent + [EndConnection()];
    }

    method HandleServerResponse(poll: Poll) returns (ret: Mode, sent: seq<Packet>)
      requires Valid()
      modifies window, window.occupied
      ensures Valid()
      ensures (View(ret), sent) == ResponseStep(old(View(ServerData)), poll)
    {
      sent := [];
      if poll.Timeout? {
        return FileData, sent;
      }
      if poll.Corrupt? {
        return AckData, sent;
      }
      var p := poll.packet;
      if p.flag == FLAG_SREJ {
        var buf := window.LoadFromWindow(p.seqNum);
        sent := [DataPacket(p.seqNum, buf)];
      }
      if p.flag == FLAG_RR {
        if p.seqNum == previousSn {
          ret, sent := ExitClient();
          return;
        } else if p.seqNum >= window.lower {
          window.MoveWindow(p.seqNum);
        }
      }
      ret := ServerData;
    }

    method GetDataAcknowledgement(poll: Poll) returns (ret: Mode, sent: seq<Packet>)
      requires Valid()
      modifies this
      ensures Valid()
      ensures (View(ret), sent) == AckStep(old(View(AckData)), poll)
    {
      sent := [];
      if retryCount > 10 {
        return Exited(false), sent;
      }
      if poll.Timeout? {
        retryCount := retryCount + 1;
        if previousSn == window.lower {
          return AckData, sent;
        }
        var buf := window.LoadFromWindow(window.lower);
        sent := [DataPacket(window.lower, buf)];
        return AckData, sent;
      }
      retryCount := 0;
      ret := ServerData;
    }

    /** The body of `main`'s loop. */
    method Turn(mode: Mode, poll: Poll) returns (ret: Mode, sent: seq<Packet>)
      requires Valid() && !mode.Exited?
      modifies this, window, window.ptr, window.occupied
      ensures Valid()
      ensures (View(ret), sent) == Step(old(View(mode)), poll)
    {
      if mode == FileData {
        ret, sent := SendFileBuffer();
      } else if mode == ServerData {
        ret, sent := HandleServerResponse(poll);
      } else {
        ret, sent := GetDataAcknowledgement(poll);
      }
    }
  }
}

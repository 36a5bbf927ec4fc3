/** What each turn of the two programs of Program_3 does, for every state and every poll: which state it
    leads to and when, what it sends and when, and what it leaves alone. */
module Turns {
  import opened Bytes
  import opened Chunks
  import opened Packets
  import opened Windowing
  import opened Transfer
  import C = UdpClient
  import S = UdpServer

  // ---------------------------------------------------------------- the client

  /** FILE reads and sends the next chunk, unless the window is full, when it does not read, or the
      file has ended, when it notes the number that acknowledges all of it. */
  lemma FileTurn(c: C.ClientState, poll: Poll)
    requires ClientInv(c) && c.mode == C.FileData
    ensures
      var (d, sent) := C.Step(c, poll);
      var n, chunk := c.newSn, Chunk(c.input, c.bufSize, c.newSn);
      if n == c.window.lower + c.window.size then
        d == c.(mode := C.AckData) && sent == []
      else if chunk == [] then
        d == c.(mode := C.AckData, previousSn := n) && sent == []
      else
        && sent == [DataPacket(n, chunk)]
        && d.mode == C.ServerData && d.newSn == n + 1 && d.retryCount == c.retryCount
        && d.pos == ReadUpTo(c.input, c.bufSize, n)
        && d.previousSn == (if |chunk| < c.bufSize then n + 1 else c.previousSn)
        && d.window.lower == c.window.lower && d.window.current == n + 1
        && forall q :: 1 <= q <= n < q + c.window.size ==> Load(d.window, q) == Chunk(c.input, c.bufSize, q)
  {
    assert Chunk(c.input, c.bufSize, c.newSn) == c.input[c.pos..c.pos + Min(c.bufSize, |c.input| - c.pos)];
    NewSlotKeepsOthers(c, Chunk(c.input, c.bufSize, c.newSn));
    var d := C.FileStep(c).0;
    if d.newSn > c.newSn {
      var w := Insert(c.window, Chunk(c.input, c.bufSize, c.newSn), c.newSn);
      assert d.window == w.(current := c.newSn + 1);
      assert forall q {:trigger Load(d.window, q)} :: Load(d.window, q) == Load(w, q);
    }
  }

  /** SERVER goes to FILE exactly on silence, to ACK exactly on a damaged packet, and exits, with EOF
      and END, exactly on the acknowledgement of everything; only a live acknowledgement moves the
      window, only a reject is answered, and nothing else changes. */
  lemma ResponseTurn(c: C.ClientState, poll: Poll)
    requires c.Valid() && c.mode == C.ServerData
    ensures
      var (d, sent) := C.Step(c, poll);
      var acknowledges := poll.Got? && poll.packet.flag == FLAG_RR;
      var rejects := poll.Got? && poll.packet.flag == FLAG_SREJ;
      var last := acknowledges && poll.packet.seqNum == c.previousSn;
      && (d.mode == C.FileData <==> poll == Timeout)
      && (d.mode == C.AckData <==> poll == Corrupt)
      && (d.mode.Exited? <==> last) && (last ==> d.mode.success)
      && (sent != [] <==> last || rejects)
      && (last ==> sent == [EndOfFile(), EndConnection()])
      && (rejects ==> sent == [DataPacket(poll.packet.seqNum, Load(c.window, poll.packet.seqNum))])
      && d == c.(mode := d.mode, window := d.window)
      && d.window ==
           (if acknowledges && !last && poll.packet.seqNum >= c.window.lower then Move(c.window, poll.packet.seqNum)
            else c.window)
  {
  }

  /** A reject that the client has not moved past is answered with exactly the chunk it asks for, and an
      older one with a packet that the receiver is past; nothing else happens. */
  lemma RejectIsAnswered(s: System, p: Packet) returns (answer: Packet)
    requires Inv(s) && s.client.mode == C.ServerData && p in s.toClient && p.flag == FLAG_SREJ
    ensures Next(s, ClientTurn(Got(p))) == s.(toServer := s.toServer + {answer})
    ensures answer.flag == FLAG_DATA_PACKET && answer.seqNum == p.seqNum
    ensures p.seqNum >= s.client.window.lower ==> answer.payload == Chunk(s.client.input, s.client.bufSize, p.seqNum)
    ensures p.seqNum < s.client.window.lower ==> p.seqNum < s.server.window.lower
  {
    assert ToClientOk(s.client, s.server.window.lower, p);
    answer := DataPacket(p.seqNum, Load(s.client.window, p.seqNum));
    ClientTurnIs(s, Got(p), s.client, [answer]);
    assert (set q | q in [answer]) == {answer};
  }

  /** ACK gives up exactly when more than ten retries are counted; otherwise silence counts one, and any
      packet, damaged or not, is left unread and leads to SERVER with the count cleared. */
  lemma AckTurn(c: C.ClientState, poll: Poll)
    requires c.Valid() && c.mode == C.AckData
    ensures
      var (d, sent) := C.Step(c, poll);
      && (d.mode.Exited? <==> c.retryCount > 10) && (d.mode.Exited? ==> !d.mode.success)
      && (d.mode == C.ServerData <==> c.retryCount <= 10 && poll != Timeout)
      && d.mode != C.FileData
      && (d.mode == C.ServerData ==> d.retryCount == 0)
      && (d.mode == C.AckData ==> d.retryCount == c.retryCount + 1)
      && (d.mode.Exited? ==> d.retryCount == c.retryCount)
      && (sent != [] <==> d.mode == C.AckData && c.previousSn != c.window.lower)
      && d == c.(mode := d.mode, retryCount := d.retryCount)
  {
  }

  /** What is repeated, with something unacknowledged, is the chunk at the lower edge. */
  lemma RepetitionIsRight(s: System)
    requires Inv(s) && Resends(s.client, Timeout) && HasUnacknowledged(s.client)
    ensures
      var c := s.client;
      Next(s, ClientTurn(Timeout)) ==
      s.(client := c.(retryCount := c.retryCount + 1),
         toServer := s.toServer + {DataPacket(c.window.lower, Chunk(c.input, c.bufSize, c.window.lower))})
  {
    var c := s.client;
    var p := DataPacket(c.window.lower, Load(c.window, c.window.lower));
    ClientTurnIs(s, Timeout, c.(retryCount := c.retryCount + 1), [p]);
    assert (set q | q in [p]) == {p};
  }

  // ---------------------------------------------------------------- the server

  /** RECVFILE stops exactly when more than ten retries are counted or data is numbered above the window,
      goes to TERMINATION exactly on EOF and to RECOVER exactly on data ahead of its edge; silence
      counts a retry and everything else clears the count; only data is answered. */
  lemma RecvFileTurn(r: S.ServerState, poll: Poll)
    requires r.window.Valid() && r.mode == S.RecvFile
    ensures
      var (t, sent) := S.Step(r, poll);
      var l := r.window.lower;
      var listens := r.retryCount <= 10;
      var data := listens && poll.Got? && poll.packet.flag == FLAG_DATA_PACKET;
      var behind := data && poll.packet.seqNum < l;
      var inOrder := data && poll.packet.seqNum == l;
      var ahead := data && l < poll.packet.seqNum <= r.window.upper;
      var beyond := data && poll.packet.seqNum > r.window.upper;
      && (t.mode == S.Exited(S.RetriesExhausted) <==> !listens)
      && (t.mode == S.Exited(S.BeyondWindow) <==> beyond)
      && (t.mode == S.Termination <==> listens && poll.Got? && poll.packet.flag == FLAG_EOF)
      && (t.mode == S.Recover <==> ahead)
      && (t.mode == S.RecvFile || t.mode == S.Recover || t.mode == S.Termination
          || t.mode == S.Exited(S.RetriesExhausted) || t.mode == S.Exited(S.BeyondWindow))
      && t.retryCount == (if !listens then r.retryCount else if poll == Timeout then r.retryCount + 1 else 0)
      && (!inOrder ==> t.output == r.output && (!ahead ==> t.window == r.window))
      && (behind ==> sent == [RequestReady(l)])
      && (inOrder ==> sent == [RequestReady(t.window.lower)] && t.window.lower > l)
      && (ahead ==> sent == [SelectiveReject(l)] && t.window.lower == l)
      && (sent != [] <==> behind || inOrder || ahead)
  {
    if poll.Got? && poll.packet.seqNum == r.window.lower {
      S.DrainDeliversRun(r, poll.packet);
    }
  }

  /** RECOVER stops exactly on silence and ignores a damaged packet; any packet numbered in the window,
      whatever its flag, ends it with a request for the new edge, and any other is answered with a
      request for the current number. */
  lemma RecoverTurn(r: S.ServerState, poll: Poll)
    requires r.window.Valid() && r.mode == S.Recover
    ensures
      var (t, sent) := S.Step(r, poll);
      var inWindow := poll.Got? && r.window.lower <= poll.packet.seqNum <= r.window.upper;
      && (poll == Timeout <==> t == r.(mode := S.Exited(S.RecoverTimeout)))
      && (poll == Corrupt ==> t == r)
      && (sent == [] <==> !poll.Got?)
      && (t.mode == S.RecvFile <==> inWindow)
      && (inWindow ==> sent == [RequestReady(t.window.lower)] && t.retryCount == r.retryCount)
      && (poll.Got? && !inWindow ==> t == r && sent == [RequestReady(r.window.current)])
  {
  }

  /** TERMINATION sends END every time, counts silence, and stops exactly on END; window and file stay. */
  lemma TerminationTurn(r: S.ServerState, poll: Poll)
    requires r.window.Valid() && r.mode == S.Termination
    ensures
      var (t, sent) := S.Step(r, poll);
      && sent == [EndConnection()]
      && (t.mode == S.Exited(S.ClientEnded) <==> poll.Got? && poll.packet.flag == FLAG_END_CONNECTION)
      && (t.mode.Exited? ==> t.mode.reason == S.ClientEnded) && (!t.mode.Exited? ==> t.mode == S.Termination)
      && t.retryCount == r.retryCount + (if poll == Timeout then 1 else 0)
      && t.window == r.window && t.output == r.output
  {
  }

  /** The flag octets of the five packets. The requests and rejects of the server carry their number
      twice: in the header and, in network order, as the payload. */
  lemma PacketsAre(n: nat, data: seq<byte>)
    requires n < 0x1_0000_0000
    ensures DataPacket(n, data) == Packet(3, n, data)
    ensures EndOfFile() == Packet(9, 0, []) && EndConnection() == Packet(10, 0, [])
    ensures var rr := RequestReady(n);
            rr.flag == 5 && rr.seqNum == n && |rr.payload| == 4 && BigEndian(rr.payload) == n
    ensures var srej := SelectiveReject(n);
            srej.flag == 6 && srej.seqNum == n && |srej.payload| == 4 && BigEndian(srej.payload) == n
  {
    Be32IsBigEndian(n);
  }
}

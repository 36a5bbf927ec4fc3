/** Sender, receiver and network of Program_3 as one system, and its safety.

    The network keeps every packet ever sent in each direction; a turn that receives picks any of
    them, or none, or a damaged copy of one. Loss, delay, duplication, corruption and reordering are
    all runs of this system. */
module Transfer {
  import opened Bytes
  import opened Chunks
  import opened Packets
  import opened Windowing
  import C = UdpClient
  import S = UdpServer

  datatype System = System(client: C.ClientState, server: S.ServerState,
                           toServer: set<Packet>, toClient: set<Packet>)
  {
    predicate Valid() {
      client.Valid() && server.window.Valid()
    }
  }

  datatype Label = ClientTurn(poll: Poll) | ServerTurn(poll: Poll)

  /** What a poll can report about a channel: a packet that was sent, a damaged one, or nothing. */
  predicate Reports(channel: set<Packet>, poll: Poll) {
    match poll
    case Timeout => true
    case Corrupt => channel != {}
    case Got(p) => p in channel
  }

  /** A stopped program takes no turn. */
  predicate Possible(s: System, l: Label) {
    match l
    case ClientTurn(poll) => !s.client.mode.Exited? && Reports(s.toClient, poll)
    case ServerTurn(poll) => !s.server.mode.Exited? && Reports(s.toServer, poll)
  }

  function Next(s: System, l: Label): (t: System)
    requires s.Valid() && Possible(s, l)
    ensures t.Valid() && t.client.input == s.client.input && t.client.bufSize == s.client.bufSize
  {
    match l
    case ClientTurn(poll) =>
      var (c, sent) := C.Step(s.client, poll);
      s.(client := c, toServer := s.toServer + set p | p in sent)
    case ServerTurn(poll) =>
      var (r, sent) := S.Step(s.server, poll);
      s.(server := r, toClient := s.toClient + set p | p in sent)
  }

  /** Both windows freshly reset to the same size over whatever memory `malloc` returned. */
  ghost predicate FreshStart(s: System) {
    && s.Valid()
    && s.client.bufSize >= 1
    && s.client == C.Start(s.client.input, s.client.bufSize, s.client.window)
    && s.client.window == Reset(s.client.window.size, s.client.window.slots, s.client.window.occupied)
    && s.server == S.Start(s.server.window)
    && s.server.window == Reset(s.client.window.size, s.server.window.slots, s.server.window.occupied)
    && s.toServer == {} && s.toClient == {}
  }

  /** The blocks that do no harm to a receiver starting at number 1: one slot, two slots with that of
      number 2 free, or no slot marked. */
  ghost predicate HarmlessMarks(occupied: seq<bool>) {
    |occupied| == 1 || (|occupied| == 2 && !occupied[0]) || forall k :: 0 <= k < |occupied| ==> !occupied[k]
  }

  ghost predicate Initial(s: System) {
    FreshStart(s) && HarmlessMarks(s.server.window.occupied)
  }

  // ---------------------------------------------------------------- the invariant

  ghost predicate ClientInv(c: C.ClientState) {
    && c.Valid() && c.bufSize >= 1 && c.retryCount <= 11
    && 1 <= c.window.lower <= c.newSn == c.window.current <= c.window.upper
    && c.pos == ReadUpTo(c.input, c.bufSize, c.newSn - 1)
    && (if c.previousSn == 0 then FullReads(c.input, c.bufSize, c.newSn - 1)
        else c.previousSn == c.newSn && c.pos == |c.input|)
    && forall q :: 1 <= q < c.newSn <= q + c.window.size ==>
         Load(c.window, q) == Chunk(c.input, c.bufSize, q)
  }

  /** The window sandwich, the receiver's buffer and the receiver's file. */
  ghost predicate ServerInv(c: C.ClientState, r: S.ServerState)
    requires ClientInv(c)
  {
    && r.window.Valid() && r.window.size == c.window.size
    && c.window.lower <= r.window.lower == r.window.current <= c.newSn
    && r.output == Joined(c.input, c.bufSize, r.window.lower - 1)
    && r.mode != S.Exited(S.BeyondWindow)
    && RingSound(c, r.window)
  }

  /** Every buffered number of the live range was sent, and is buffered with its own chunk. */
  ghost predicate RingGood(c: C.ClientState, w: Win)
    requires w.Valid()
  {
    w.lower >= 1
    && forall q :: w.lower <= q < w.upper && w.Holds(q) ==>
         q < c.newSn && Load(w, q) == Chunk(c.input, c.bufSize, q)
  }

  /** The same, but for the mark of number 1 in a window of at most two slots. */
  ghost predicate RingSound(c: C.ClientState, w: Win)
    requires w.Valid()
  {
    w.lower >= 1
    && forall q :: w.lower <= q < w.upper && w.Holds(q) && (w.size <= 2 ==> q > 1) ==>
         q < c.newSn && Load(w, q) == Chunk(c.input, c.bufSize, q)
  }

  /** A packet that has been sent to the server: data below the receiver's edge may carry anything. */
  ghost predicate ToServerOk(c: C.ClientState, serverLower: nat, p: Packet) {
    if p.flag == FLAG_DATA_PACKET then
      1 <= p.seqNum < c.newSn
      && (serverLower <= p.seqNum ==> p.payload == Chunk(c.input, c.bufSize, p.seqNum))
    else
      (p.flag == FLAG_EOF || p.flag == FLAG_END_CONNECTION) && p.seqNum == 0
  }

  ghost predicate ToClientOk(c: C.ClientState, serverLower: nat, p: Packet) {
    (p.flag == FLAG_RR ==> 1 <= p.seqNum <= serverLower)
    && (p.flag == FLAG_SREJ ==> 1 <= p.seqNum <= serverLower && p.seqNum < c.newSn)
  }

  ghost predicate ChannelsOk(s: System) {
    && (forall p :: p in s.toServer ==> ToServerOk(s.client, s.server.window.lower, p))
    && (forall p :: p in s.toClient ==> ToClientOk(s.client, s.server.window.lower, p))
  }

  /** Either side believes the transfer is over. */
  ghost predicate DeclaredDone(s: System) {
    || s.client.mode == C.Exited(true)
    || s.server.mode == S.Termination
    || s.server.mode == S.Exited(S.ClientEnded)
    || exists p :: p in s.toServer && p.flag != FLAG_DATA_PACKET
  }

  ghost predicate AllDelivered(s: System) {
    s.client.previousSn == s.client.newSn == s.server.window.lower && s.client.pos == |s.client.input|
  }

  ghost predicate Inv(s: System) {
    && ClientInv(s.client)
    && ServerInv(s.client, s.server)
    && ChannelsOk(s)
    && (DeclaredDone(s) ==> AllDelivered(s))
  }

  /** The client is about to repeat the packet at its lower edge after a silent second. */
  predicate Resends(c: C.ClientState, poll: Poll) {
    c.mode == C.AckData && poll.Timeout? && c.retryCount <= 10 && c.previousSn != c.window.lower
  }

  /** There is an unacknowledged packet at the lower edge to repeat. */
  predicate HasUnacknowledged(c: C.ClientState) {
    c.window.lower < c.window.current
  }

  predicate Guarded(s: System, l: Label) {
    l.ClientTurn? && Resends(s.client, l.poll) ==> HasUnacknowledged(s.client)
  }

  lemma InitialInv(s: System)
    requires Initial(s)
    ensures Inv(s)
  {
  }

  // ---------------------------------------------------------------- steps keep the invariant

  lemma ClientFileKeepsClientInv(c: C.ClientState)
    requires ClientInv(c)
    ensures ClientInv(C.FileStep(c).0)
  {
    var d := C.FileStep(c).0;
    if d.newSn > c.newSn {
      var data := c.input[c.pos..d.pos];
      assert data == Chunk(c.input, c.bufSize, c.newSn);
      NewSlotKeepsOthers(c, data);
      assert d.window == Insert(c.window, data, c.newSn).(current := c.newSn + 1);
    }
  }

  /** The last window of chunks stays in place when the next one is stored. */
  lemma NewSlotKeepsOthers(c: C.ClientState, data: seq<byte>)
    requires ClientInv(c) && data == Chunk(c.input, c.bufSize, c.newSn)
    ensures var w := Insert(c.window, data, c.newSn);
            forall q :: 1 <= q <= c.newSn < q + w.size ==> Load(w, q) == Chunk(c.input, c.bufSize, q)
  {
    var w := Insert(c.window, data, c.newSn);
    forall q | 1 <= q <= c.newSn < q + w.size
      ensures Load(w, q) == Chunk(c.input, c.bufSize, q)
    {
      ModInjective(q, c.newSn, c.window.size);
      if q < c.newSn {
        assert Load(w, q) == Load(c.window, q);
      }
    }
  }

  lemma MoreReadKeepsServerInv(c: C.ClientState, d: C.ClientState, r: S.ServerState)
    requires ClientInv(c) && ClientInv(d) && ServerInv(c, r)
    requires d.input == c.input && d.bufSize == c.bufSize && d.newSn >= c.newSn
    requires d.window.size == c.window.size && d.window.lower == c.window.lower
    ensures ServerInv(d, r)
  {
  }

  lemma ClientFileKeepsInv(s: System, poll: Poll)
    requires Inv(s) && s.client.mode == C.FileData && Possible(s, ClientTurn(poll))
    ensures Inv(Next(s, ClientTurn(poll)))
  {
    var c := s.client;
    var d := C.FileStep(c).0;
    var t := Next(s, ClientTurn(poll));
    ClientFileKeepsClientInv(c);
    MoreReadKeepsServerInv(c, d, s.server);
    forall p | p in t.toServer
      ensures ToServerOk(d, s.server.window.lower, p)
    {
      if p in s.toServer {
        assert ToServerOk(c, s.server.window.lower, p);
      }
    }
    assert DeclaredDone(t) ==> DeclaredDone(s);
  }

  /** Sending packets that are in order keeps the invariant. */
  lemma SendingKeepsInv(s: System, sent: seq<Packet>)
    requires Inv(s)
    requires forall p :: p in sent ==> ToServerOk(s.client, s.server.window.lower, p)
    requires (exists p :: p in sent && p.flag != FLAG_DATA_PACKET) ==> AllDelivered(s)
    ensures Inv(s.(toServer := s.toServer + set p | p in sent))
  {
  }

  /** Changing the mode, or the retry count within its bound. */
  lemma ModeKeepsInv(s: System, mode: C.Mode, retryCount: nat)
    requires Inv(s) && retryCount <= 11 && (mode == C.Exited(true) ==> AllDelivered(s))
    ensures Inv(s.(client := s.client.(mode := mode, retryCount := retryCount)))
  {
  }

  lemma ClientMoveKeepsInv(s: System, n: nat)
    requires Inv(s) && s.client.mode != C.Exited(true)
    requires s.client.window.lower <= n <= s.server.window.lower
    ensures Inv(s.(client := s.client.(window := Move(s.client.window, n))))
  {
  }

  /** A reject for `q` is answered with chunk `q`, or with something the receiver is past. */
  lemma AnswerIsOk(s: System, q: nat)
    requires Inv(s) && 1 <= q < s.client.newSn
    ensures ToServerOk(s.client, s.server.window.lower, DataPacket(q, Load(s.client.window, q)))
  {
  }

  /** A turn of the client, put together from what it changes and what it sends. */
  lemma ClientTurnIs(s: System, poll: Poll, d: C.ClientState, sent: seq<Packet>)
    requires s.Valid() && d.Valid() && Possible(s, ClientTurn(poll)) && C.Step(s.client, poll) == (d, sent)
    ensures Next(s, ClientTurn(poll)) == s.(client := d).(toServer := s.toServer + set p | p in sent)
    ensures sent == [] ==> Next(s, ClientTurn(poll)) == s.(client := d)
  {
    assert sent == [] ==> s.toServer + (set p | p in sent) == s.toServer;
  }

  lemma RejectKeepsInv(s: System, p: Packet)
    requires Inv(s) && s.client.mode == C.ServerData && p in s.toClient && p.flag == FLAG_SREJ
    ensures Inv(Next(s, ClientTurn(Got(p))))
  {
    assert ToClientOk(s.client, s.server.window.lower, p);
    AnswerIsOk(s, p.seqNum);
    var sent := [DataPacket(p.seqNum, Load(s.client.window, p.seqNum))];
    SendingKeepsInv(s, sent);
    ClientTurnIs(s, Got(p), s.client, sent);
  }

  lemma LastAckKeepsInv(s: System, p: Packet)
    requires Inv(s) && s.client.mode == C.ServerData && p in s.toClient
    requires p.flag == FLAG_RR && p.seqNum == s.client.previousSn
    ensures Inv(Next(s, ClientTurn(Got(p))))
  {
    assert ToClientOk(s.client, s.server.window.lower, p);
    var d := s.client.(mode := C.Exited(true));
    var sent := [EndOfFile(), EndConnection()];
    ModeKeepsInv(s, C.Exited(true), s.client.retryCount);
    SendingKeepsInv(s.(client := d), sent);
    ClientTurnIs(s, Got(p), d, sent);
  }

  lemma AckMovesAndKeepsInv(s: System, p: Packet)
    requires Inv(s) && s.client.mode == C.ServerData && p in s.toClient
    requires p.flag == FLAG_RR && p.seqNum != s.client.previousSn && p.seqNum >= s.client.window.lower
    ensures Inv(Next(s, ClientTurn(Got(p))))
  {
    assert ToClientOk(s.client, s.server.window.lower, p);
    ClientMoveKeepsInv(s, p.seqNum);
    ClientTurnIs(s, Got(p), s.client.(window := Move(s.client.window, p.seqNum)), []);
  }

  lemma ClientResponseKeepsInv(s: System, poll: Poll)
    requires Inv(s) && s.client.mode == C.ServerData && Possible(s, ClientTurn(poll))
    ensures Inv(Next(s, ClientTurn(poll)))
  {
    var c := s.client;
    if poll.Got? && poll.packet.flag == FLAG_SREJ {
      RejectKeepsInv(s, poll.packet);
    } else if poll.Got? && poll.packet.flag == FLAG_RR && poll.packet.seqNum == c.previousSn {
      LastAckKeepsInv(s, poll.packet);
    } else if poll.Got? && poll.packet.flag == FLAG_RR && poll.packet.seqNum >= c.window.lower {
      AckMovesAndKeepsInv(s, poll.packet);
    } else {
      var mode := if poll.Timeout? then C.FileData else if poll.Corrupt? then C.AckData else C.ServerData;
      ModeKeepsInv(s, mode, c.retryCount);
      ClientTurnIs(s, poll, c.(mode := mode), []);
    }
  }

  lemma ClientAckKeepsInv(s: System, poll: Poll)
    requires Inv(s) && s.client.mode == C.AckData
    requires Resends(s.client, poll) ==> HasUnacknowledged(s.client)
    requires Possible(s, ClientTurn(poll))
    ensures Inv(Next(s, ClientTurn(poll)))
  {
    var c := s.client;
    var (d, sent) := C.AckStep(c, poll);
    ModeKeepsInv(s, d.mode, d.retryCount);
    if Resends(c, poll) {
      AnswerIsOk(s, c.window.lower);
      SendingKeepsInv(s.(client := d), sent);
    }
    assert Next(s, ClientTurn(poll)) == s.(client := d, toServer := s.toServer + set p | p in sent);
    assert sent == [] ==> s.toServer + (set p | p in sent) == s.toServer;
  }

  /** Inserting at the edge replaces the one slot that a stale mark could have spoilt. */
  lemma InsertKeepsRing(c: C.ClientState, w: Win, p: Packet)
    requires w.Valid() && RingSound(c, w)
    requires w.lower <= p.seqNum < w.upper && ToServerOk(c, w.lower, p)
    ensures RingSound(c, Insert(w, p.payload, p.seqNum))
    ensures p.seqNum == w.lower || w.lower > 1 || w.size > 2 ==> RingGood(c, Insert(w, p.payload, p.seqNum))
  {
    var v := Insert(w, p.payload, p.seqNum);
    forall q | v.lower <= q < v.upper && v.Holds(q) && (q == p.seqNum || q > 1 || w.size > 2)
      ensures q < c.newSn && Load(v, q) == Chunk(c.input, c.bufSize, q)
    {
      if q <= p.seqNum { ModInjective(q, p.seqNum, w.size); } else { ModInjective(p.seqNum, q, w.size); }
      if q != p.seqNum {
        assert w.Holds(q);
      }
    }
  }

  lemma MoveKeepsRing(c: C.ClientState, w: Win, n: nat)
    requires w.Valid() && RingGood(c, w) && w.lower <= n <= w.upper
    ensures Move(w, n).Valid() && RingGood(c, Move(w, n)) && RingSound(c, Move(w, n))
  {
    forall q | n <= q < n + w.size
      ensures Move(w, n).Holds(q) <==> q < w.upper && w.Holds(q)
    {
      MoveHolds(w, n, q);
    }
  }

  /** Totals that grow by `m[k]` at every step `k` grow by all of them from `i - 1` to `j - 1`. */
  lemma {:induction false} StepsAddUp(totals: seq<seq<byte>>, m: map<nat, seq<byte>>, i: nat, j: nat,
                                      first: seq<byte>, last: seq<byte>)
    requires 1 <= i <= j == |totals| && first == totals[i - 1] && last == totals[j - 1]
    requires forall k :: i <= k < j ==> k in m && totals[k] == totals[k - 1] + m[k]
    ensures first + S.Concat(m, i, j) == last
    decreases j - i
  {
    if i == j {
      assert first + [] == first;
    } else {
      StepsAddUp(totals, m, i + 1, j, first + m[i], last);
      var rest := S.Concat(m, i + 1, j);
      assert first + (m[i] + rest) == (first + m[i]) + rest;
    }
  }

  /** Writing a run of buffered chunks extends the file by exactly those chunks. */
  lemma RunIsChunks(input: seq<byte>, size: nat, m: map<nat, seq<byte>>, i: nat, j: nat, output: seq<byte>)
    requires 1 <= i <= j && output == Joined(input, size, i - 1)
    requires forall k :: i <= k < j ==> k in m && m[k] == Chunk(input, size, k)
    ensures output + S.Concat(m, i, j) == Joined(input, size, j - 1)
  {
    var totals := seq(j, k requires 0 <= k < j => Joined(input, size, k));
    var last := totals[j - 1];
    StepsAddUp(totals, m, i, j, output, last);
    assert last == Joined(input, size, j - 1);
  }

  lemma RunExtendsFile(c: C.ClientState, w: Win, e: nat, output: seq<byte>) returns (whole: seq<byte>)
    requires w.Valid() && RingGood(c, w) && w.lower <= e <= w.upper
    requires forall k :: w.lower <= k < e ==> w.Holds(k)
    requires output == Joined(c.input, c.bufSize, w.lower - 1)
    ensures whole == output + RunBytes(w, w.lower, e)
    ensures whole == Joined(c.input, c.bufSize, e - 1)
    ensures w.lower < e ==> e <= c.newSn
  {
    var m := Buffered(w);
    RunIsChunks(c.input, c.bufSize, m, w.lower, e, output);
    S.RunBytesIsConcat(w, w.lower, e);
    whole := output + S.Concat(m, w.lower, e);
    if w.lower < e {
      assert w.Holds(e - 1);
    }
  }

  /** No packet at or above `upper` ever reaches the receiver. */
  lemma DataStaysBelowUpper(s: System, p: Packet)
    requires Inv(s) && p in s.toServer
    ensures p.flag != FLAG_DATA_PACKET ==> p.seqNum < s.server.window.lower
    ensures p.seqNum < s.server.window.upper
  {
  }

  /** Writing a run from the receiver's edge and moving past it keeps the receiver's invariant. */
  lemma DeliveryKeepsServerInv(c: C.ClientState, r: S.ServerState, w: Win, e: nat)
    requires ClientInv(c) && ServerInv(c, r)
    requires w.Valid() && w.size == c.window.size && w.lower == r.window.lower
    requires RingSound(c, w) && (RingGood(c, w) || e == w.lower)
    requires w.current <= e && w.lower <= e <= w.upper
    requires forall k :: w.lower <= k < e ==> w.Holds(k)
    ensures ServerInv(c, r.(window := Move(w, e), output := r.output + RunBytes(w, w.lower, e)))
  {
    MoveForward(w, e);
    if e == w.lower {
      MoveNowhereKeepsRing(c, w);
      EdgeKeepsServerInv(c, r, Move(w, e), e, r.output);
      assert r.output + RunBytes(w, w.lower, e) == r.output;
    } else {
      var whole := RunExtendsFile(c, w, e, r.output);
      MoveKeepsRing(c, w, e);
      EdgeKeepsServerInv(c, r, Move(w, e), e, whole);
    }
  }

  lemma EdgeKeepsServerInv(c: C.ClientState, r: S.ServerState, v: Win, e: nat, output: seq<byte>)
    requires ClientInv(c) && ServerInv(c, r)
    requires v.Valid() && v.size == c.window.size && c.window.lower <= v.lower == v.current == e <= c.newSn
    requires output == Joined(c.input, c.bufSize, e - 1) && RingSound(c, v)
    ensures ServerInv(c, r.(window := v, output := output))
  {
  }

  lemma MoveNowhereKeepsRing(c: C.ClientState, w: Win)
    requires w.Valid() && RingSound(c, w)
    ensures Move(w, w.lower).Valid() && RingSound(c, Move(w, w.lower))
    ensures RunBytes(w, w.lower, w.lower) == []
  {
    var v := Move(w, w.lower);
    assert forall q {:trigger v.Holds(q)} :: v.Holds(q) == w.Holds(q);
    assert forall q {:trigger Load(v, q)} :: Load(v, q) == Load(w, q);
  }

  lemma MoveForward(w: Win, e: nat)
    requires w.Valid() && w.lower <= e && w.current <= e
    ensures var v := Move(w, e); v.Valid() && v.lower == v.current == e && v.size == w.size
  {
  }

  lemma DrainKeepsServerInv(s: System, p: Packet)
    requires Inv(s) && p in s.toServer && p.seqNum == s.server.window.lower
    ensures ServerInv(s.client, S.Drain(s.server, p))
    ensures S.Drain(s.server, p).window.lower > s.server.window.lower
  {
    var w := Insert(s.server.window, p.payload, p.seqNum);
    DataStaysBelowUpper(s, p);
    InsertKeepsRing(s.client, s.server.window, p);
    assert w.Holds(w.lower);
    DeliveryKeepsServerInv(s.client, s.server, w, RunEnd(w, w.lower));
  }

  lemma FillKeepsServerInv(s: System, p: Packet)
    requires Inv(s) && p in s.toServer && s.server.window.lower <= p.seqNum
    ensures ServerInv(s.client, S.Fill(s.server, p))
    ensures S.Fill(s.server, p).window.lower >= s.server.window.lower
  {
    var w := Insert(s.server.window, p.payload, p.seqNum);
    DataStaysBelowUpper(s, p);
    InsertKeepsRing(s.client, s.server.window, p);
    var e := RunEnd(w, w.lower);
    var n := if e < w.upper then e else w.lower;
    S.ScanStopsAtRunEnd(s.server.window, p);
    RingIgnoresCurrent(s.client, w, n);
    if p.seqNum > w.lower && w.lower == 1 && w.size <= 2 {
      SecondOfTwoFillsNothing(w);
    }
    DeliveryKeepsServerInv(s.client, s.server, w.(current := n), n);
  }

  /** With number 2 in a window of two, either number 1 is missing or the ring is full. */
  lemma SecondOfTwoFillsNothing(w: Win)
    requires w.Valid() && w.lower == 1 && w.size == 2 && w.Holds(2)
    ensures RunEnd(w, 1) == if w.Holds(1) then w.upper else 1
  {
    assert w.Holds(1) ==> RunEnd(w, 1) == RunEnd(w, 2) == RunEnd(w, 3);
  }

  lemma RingIgnoresCurrent(c: C.ClientState, w: Win, n: nat)
    requires w.Valid() && RingSound(c, w)
    ensures RingSound(c, w.(current := n)) && (RingGood(c, w) ==> RingGood(c, w.(current := n)))
    ensures forall k :: w.(current := n).Holds(k) == w.Holds(k)
  {
    var v := w.(current := n);
    assert forall q {:trigger v.Holds(q)} :: v.Holds(q) == w.Holds(q);
    assert forall q {:trigger Load(v, q)} :: Load(v, q) == Load(w, q);
  }

  /** Once everything is delivered, every data packet in flight is below the receiver's edge. */
  lemma DoneMeansNothingNew(s: System, p: Packet)
    requires Inv(s) && AllDelivered(s) && p in s.toServer
    ensures p.seqNum < s.server.window.lower
  {
  }

  /** A receiver that has moved on, or stayed, keeps the invariant while nothing is declared done. */
  lemma ServerAdvanceKeepsInv(s: System, r: S.ServerState, mode: S.Mode, retryCount: nat, p: Packet)
    requires Inv(s) && !DeclaredDone(s) && (mode == S.RecvFile || mode == S.Recover)
    requires ServerInv(s.client, r) && r.window.lower >= s.server.window.lower
    requires ToClientOk(s.client, r.window.lower, p)
    ensures Inv(s.(server := r.(mode := mode, retryCount := retryCount), toClient := s.toClient + {p}))
  {
    forall q | q in s.toServer
      ensures ToServerOk(s.client, r.window.lower, q)
    {
      assert ToServerOk(s.client, s.server.window.lower, q);
    }
    forall q | q in s.toClient
      ensures ToClientOk(s.client, r.window.lower, q)
    {
      assert ToClientOk(s.client, s.server.window.lower, q);
    }
  }

  /** A turn of the server that sends one packet. */
  lemma ServerTurnIs(s: System, poll: Poll, r: S.ServerState, p: Packet)
    requires s.Valid() && r.window.Valid() && Possible(s, ServerTurn(poll)) && S.Step(s.server, poll) == (r, [p])
    ensures Next(s, ServerTurn(poll)) == s.(server := r, toClient := s.toClient + {p})
  {
    assert (set q | q in [p]) == {p};
  }

  lemma InOrderDataKeepsInv(s: System, p: Packet)
    requires Inv(s) && s.server.mode == S.RecvFile && s.server.retryCount <= 10
    requires p in s.toServer && p.flag == FLAG_DATA_PACKET && p.seqNum == s.server.window.lower
    ensures Inv(Next(s, ServerTurn(Got(p))))
  {
    if DeclaredDone(s) {
      DoneMeansNothingNew(s, p);
    }
    DrainKeepsServerInv(s, p);
    var r := S.Drain(s.server, p);
    var ready := RequestReady(r.window.lower);
    ServerAdvanceKeepsInv(s, r, S.RecvFile, 0, ready);
    ServerTurnIs(s, Got(p), r.(mode := S.RecvFile, retryCount := 0), ready);
  }

  lemma EarlyDataKeepsInv(s: System, p: Packet)
    requires Inv(s) && s.server.mode == S.RecvFile && s.server.retryCount <= 10
    requires p in s.toServer && p.flag == FLAG_DATA_PACKET && p.seqNum > s.server.window.lower
    ensures Inv(Next(s, ServerTurn(Got(p))))
  {
    if DeclaredDone(s) {
      DoneMeansNothingNew(s, p);
    }
    var w := Insert(s.server.window, p.payload, p.seqNum);
    DataStaysBelowUpper(s, p);
    InsertKeepsRing(s.client, s.server.window, p);
    RingIgnoresCurrent(s.client, w, w.lower);
    assert ToServerOk(s.client, w.lower, p);
    var r := s.server.(window := w.(current := w.lower));
    var reject := SelectiveReject(w.lower);
    ServerAdvanceKeepsInv(s, r, S.Recover, 0, reject);
    ServerTurnIs(s, Got(p), r.(mode := S.Recover, retryCount := 0), reject);
  }

  /** Changing the receiver's mode or retry count, and sending what it may send. */
  lemma ServerBookkeepingKeepsInv(s: System, mode: S.Mode, retryCount: nat, sent: seq<Packet>)
    requires Inv(s) && mode != S.Exited(S.BeyondWindow)
    requires mode == S.Termination || mode == S.Exited(S.ClientEnded) ==> DeclaredDone(s)
    requires forall p :: p in sent ==> ToClientOk(s.client, s.server.window.lower, p)
    ensures Inv(s.(server := s.server.(mode := mode, retryCount := retryCount),
                   toClient := s.toClient + set p | p in sent))
  {
  }

  /** A turn of RECVFILE that reads nothing: out of retries, a silent second, or a damaged packet. */
  lemma UnreadPollKeepsInv(s: System, poll: Poll)
    requires Inv(s) && s.server.mode == S.RecvFile && Possible(s, ServerTurn(poll))
    requires s.server.retryCount > 10 || !poll.Got?
    ensures Inv(Next(s, ServerTurn(poll)))
  {
    if s.server.retryCount > 10 {
      var gone := S.Exited(S.RetriesExhausted);
      assert S.Step(s.server, poll) == (s.server.(mode := gone), []);
      ServerBookkeepingKeepsInv(s, gone, s.server.retryCount, []);
    } else {
      var retries := if poll.Timeout? then s.server.retryCount + 1 else 0;
      assert S.Step(s.server, poll) == (s.server.(retryCount := retries), []);
      ServerBookkeepingKeepsInv(s, S.RecvFile, retries, []);
    }
  }

  /** Data the receiver is past is answered with its edge. */
  lemma OldDataKeepsInv(s: System, p: Packet)
    requires Inv(s) && s.server.mode == S.RecvFile && s.server.retryCount <= 10
    requires p in s.toServer && p.flag == FLAG_DATA_PACKET && p.seqNum < s.server.window.lower
    ensures Inv(Next(s, ServerTurn(Got(p))))
  {
    var sent := [RequestReady(s.server.window.lower)];
    assert S.Step(s.server, Got(p)) == (s.server.(retryCount := 0), sent);
    ServerBookkeepingKeepsInv(s, S.RecvFile, 0, sent);
  }

  /** EOF ends the receiving; anything else that is not data is dropped. */
  lemma ControlPacketKeepsInv(s: System, p: Packet)
    requires Inv(s) && s.server.mode == S.RecvFile && s.server.retryCount <= 10
    requires p in s.toServer && p.flag != FLAG_DATA_PACKET
    ensures Inv(Next(s, ServerTurn(Got(p))))
  {
    var mode := if p.flag == FLAG_EOF then S.Termination else S.RecvFile;
    assert S.Step(s.server, Got(p)) == (s.server.(mode := mode, retryCount := 0), []);
    ServerBookkeepingKeepsInv(s, mode, 0, []);
  }

  lemma ServerRecvFileKeepsInv(s: System, poll: Poll)
    requires Inv(s) && s.server.mode == S.RecvFile && Possible(s, ServerTurn(poll))
    ensures Inv(Next(s, ServerTurn(poll)))
  {
    if s.server.retryCount > 10 || !poll.Got? {
      UnreadPollKeepsInv(s, poll);
    } else if poll.packet.flag != FLAG_DATA_PACKET {
      ControlPacketKeepsInv(s, poll.packet);
    } else if poll.packet.seqNum < s.server.window.lower {
      OldDataKeepsInv(s, poll.packet);
    } else if poll.packet.seqNum == s.server.window.lower {
      InOrderDataKeepsInv(s, poll.packet);
    } else {
      EarlyDataKeepsInv(s, poll.packet);
    }
  }

  lemma InRangeKeepsInv(s: System, p: Packet)
    requires Inv(s) && s.server.mode == S.Recover && p in s.toServer && s.server.window.lower <= p.seqNum
    ensures Inv(Next(s, ServerTurn(Got(p))))
  {
    DataStaysBelowUpper(s, p);
    if DeclaredDone(s) {
      DoneMeansNothingNew(s, p);
    }
    FillKeepsServerInv(s, p);
    var r := S.Fill(s.server, p);
    var ready := RequestReady(r.window.lower);
    ServerAdvanceKeepsInv(s, r, S.RecvFile, r.retryCount, ready);
    ServerTurnIs(s, Got(p), r.(mode := S.RecvFile), ready);
  }

  lemma ServerRecoverKeepsInv(s: System, poll: Poll)
    requires Inv(s) && s.server.mode == S.Recover && Possible(s, ServerTurn(poll))
    ensures Inv(Next(s, ServerTurn(poll)))
  {
    if poll.Got? && s.server.window.lower <= poll.packet.seqNum {
      InRangeKeepsInv(s, poll.packet);
    } else {
      var (r, sent) := S.RecoverStep(s.server, poll);
      ServerBookkeepingKeepsInv(s, r.mode, r.retryCount, sent);
      assert r == s.server.(mode := r.mode, retryCount := r.retryCount);
    }
  }

  lemma ServerTerminationKeepsInv(s: System, poll: Poll)
    requires Inv(s) && s.server.mode == S.Termination && Possible(s, ServerTurn(poll))
    ensures Inv(Next(s, ServerTurn(poll)))
  {
  }

  /** Every turn of either program keeps the invariant, provided the client repeats only what it
      has sent. */
  lemma StepKeepsInv(s: System, l: Label)
    requires Inv(s) && Possible(s, l) && Guarded(s, l)
    ensures Inv(Next(s, l))
  {
    match l
    case ClientTurn(poll) =>
      if s.client.mode == C.FileData { ClientFileKeepsInv(s, poll); }
      else if s.client.mode == C.ServerData { ClientResponseKeepsInv(s, poll); }
      else { ClientAckKeepsInv(s, poll); }
    case ServerTurn(poll) =>
      if s.server.mode == S.RecvFile { ServerRecvFileKeepsInv(s, poll); }
      else if s.server.mode == S.Recover { ServerRecoverKeepsInv(s, poll); }
      else { ServerTerminationKeepsInv(s, poll); }
  }
}

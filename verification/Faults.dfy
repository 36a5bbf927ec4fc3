/** Where the client of Program_3 repeats the wrong packet, and exactly when.

    After a corrupt acknowledgement the client waits in ACK; a silent second there repeats the packet
    at `window.lower` even when everything sent is acknowledged, so that it sends an old slot under a
    number it has not used yet. */
module Faults {
  import opened Bytes
  import opened Chunks
  import opened Packets
  import opened Windowing
  import opened Transfer
  import opened Runs
  import C = UdpClient
  import S = UdpServer

  // ---------------------------------------------------------------- the guard is exact

  /** Every data packet the receiver could still accept carries its own chunk. */
  ghost predicate FreshDataOk(s: System) {
    forall p :: p in s.toServer && p.flag == FLAG_DATA_PACKET && p.seqNum >= s.server.window.lower ==>
      1 <= p.seqNum && p.payload == Chunk(s.client.input, s.client.bufSize, p.seqNum)
  }

  /** The same system reading another file. */
  function WithInput(s: System, input: seq<byte>): System {
    s.(client := s.client.(input := input))
  }

  /** The other file agrees with this one as far as the client has read. */
  ghost predicate SameSoFar(s: System, other: seq<byte>)
    requires s.Valid()
  {
    s.client.pos <= |other| && other[..s.client.pos] == s.client.input[..s.client.pos]
  }

  lemma {:induction false} SamePrefixSameChunks(input: seq<byte>, other: seq<byte>, size: nat, k: nat)
    requires FullReads(input, size, k) && ReadUpTo(input, size, k) <= |other|
    requires other[..ReadUpTo(input, size, k)] == input[..ReadUpTo(input, size, k)]
    ensures FullReads(other, size, k) && ReadUpTo(other, size, k) == ReadUpTo(input, size, k)
    ensures Joined(other, size, k) == Joined(input, size, k)
    ensures forall q :: 1 <= q <= k ==> Chunk(other, size, q) == Chunk(input, size, q)
  {
    if k > 0 {
      var p, r := ReadUpTo(input, size, k - 1), ReadUpTo(input, size, k);
      assert other[..p] == other[..r][..p] == input[..r][..p] == input[..p];
      SamePrefixSameChunks(input, other, size, k - 1);
      assert Chunk(other, size, k) == other[..r][p..] == Chunk(input, size, k);
    }
  }

  lemma OtherInputKeepsClientInv(c: C.ClientState, other: seq<byte>)
    requires ClientInv(c) && c.previousSn == 0
    requires c.pos <= |other| && other[..c.pos] == c.input[..c.pos]
    ensures ClientInv(c.(input := other))
    ensures forall q :: 1 <= q < c.newSn ==> Chunk(other, c.bufSize, q) == Chunk(c.input, c.bufSize, q)
  {
    SamePrefixSameChunks(c.input, other, c.bufSize, c.newSn - 1);
    var d := c.(input := other);
    forall q | 1 <= q < d.newSn <= q + d.window.size
      ensures Load(d.window, q) == Chunk(other, d.bufSize, q)
    {
      assert Load(c.window, q) == Chunk(c.input, c.bufSize, q);
    }
  }

  lemma OtherInputKeepsServerInv(c: C.ClientState, other: seq<byte>, r: S.ServerState)
    requires ClientInv(c) && ClientInv(c.(input := other)) && ServerInv(c, r)
    requires forall q :: 1 <= q < c.newSn ==> Chunk(other, c.bufSize, q) == Chunk(c.input, c.bufSize, q)
    ensures ServerInv(c.(input := other), r)
  {
    JoinedOfFewer(c.input, other, c.bufSize, r.window.lower - 1, c.newSn - 1);
    OtherInputKeepsRing(c, other, r.window);
  }

  lemma OtherInputKeepsInv(s: System, other: seq<byte>)
    requires Inv(s) && s.client.previousSn == 0 && SameSoFar(s, other)
    ensures Inv(WithInput(s, other))
  {
    var c := s.client;
    OtherInputKeepsClientInv(c, other);
    OtherInputKeepsServerInv(c, other, s.server);
    OtherInputKeepsChannels(s, other);
    assert DeclaredDone(WithInput(s, other)) ==> DeclaredDone(s);
  }

  lemma OtherInputKeepsRing(c: C.ClientState, other: seq<byte>, w: Win)
    requires w.Valid() && RingSound(c, w)
    requires forall q :: 1 <= q < c.newSn ==> Chunk(other, c.bufSize, q) == Chunk(c.input, c.bufSize, q)
    ensures RingSound(c.(input := other), w)
  {
  }

  lemma OtherInputKeepsChannels(s: System, other: seq<byte>)
    requires ChannelsOk(s)
    requires forall q :: 1 <= q < s.client.newSn ==>
               Chunk(other, s.client.bufSize, q) == Chunk(s.client.input, s.client.bufSize, q)
    ensures ChannelsOk(WithInput(s, other))
  {
  }

  lemma {:induction false} JoinedOfFewer(input: seq<byte>, other: seq<byte>, size: nat, k: nat, n: nat)
    requires k <= n && forall q :: 1 <= q <= n ==> Chunk(other, size, q) == Chunk(input, size, q)
    ensures Joined(other, size, k) == Joined(input, size, k)
  {
    if k > 0 {
      JoinedOfFewer(input, other, size, k - 1, n);
    }
  }

  /** Repeating with nothing unacknowledged can only happen before the end of the file is known. */
  lemma UnguardedMeansReading(c: C.ClientState)
    requires ClientInv(c) && Resends(c, Timeout) && !HasUnacknowledged(c)
    ensures c.previousSn == 0 && c.window.lower == c.newSn
  {
  }

  /** A file that goes on differently from what the stale slot holds. */
  function Divergent(stale: seq<byte>): seq<byte> {
    if stale == [] then [0] else []
  }

  /** The repetition is right for every file the client could be reading if and only if something
      is unacknowledged; no guard that looks at what has been read so far could be weaker. */
  lemma GuardIsExact(s: System)
    requires Inv(s) && Resends(s.client, Timeout)
    ensures HasUnacknowledged(s.client) <==>
            forall other: seq<byte> :: SameSoFar(s, other) && Inv(WithInput(s, other)) ==>
              FreshDataOk(Next(WithInput(s, other), ClientTurn(Timeout)))
  {
    if HasUnacknowledged(s.client) {
      forall other: seq<byte> | SameSoFar(s, other) && Inv(WithInput(s, other))
        ensures FreshDataOk(Next(WithInput(s, other), ClientTurn(Timeout)))
      {
        StepKeepsInv(WithInput(s, other), ClientTurn(Timeout));
        InvMeansFreshDataOk(Next(WithInput(s, other), ClientTurn(Timeout)));
      }
    } else {
      var other := UnguardedHasWitness(s);
    }
  }

  lemma UnguardedHasWitness(s: System) returns (other: seq<byte>)
    requires Inv(s) && Resends(s.client, Timeout) && !HasUnacknowledged(s.client)
    ensures SameSoFar(s, other) && Inv(WithInput(s, other))
    ensures !FreshDataOk(Next(WithInput(s, other), ClientTurn(Timeout)))
  {
    UnguardedMeansReading(s.client);
    var c := s.client;
    var stale := Load(c.window, c.newSn);
    other := c.input[..c.pos] + Divergent(stale);
    OtherInputKeepsInv(s, other);
    NextChunkDiverges(c, stale);
    var u := WithInput(s, other);
    var t := Next(u, ClientTurn(Timeout));
    assert C.Step(u.client, Timeout).1 == [DataPacket(c.newSn, stale)];
    assert DataPacket(c.newSn, stale) in t.toServer;
  }

  lemma NextChunkDiverges(c: C.ClientState, stale: seq<byte>)
    requires ClientInv(c) && c.previousSn == 0
    ensures Chunk(c.input[..c.pos] + Divergent(stale), c.bufSize, c.newSn) != stale
  {
    var other := c.input[..c.pos] + Divergent(stale);
    SamePrefixSameChunks(c.input, other, c.bufSize, c.newSn - 1);
    assert ReadUpTo(other, c.bufSize, c.newSn - 1) == c.pos;
    assert Chunk(other, c.bufSize, c.newSn) == Divergent(stale);
  }

  lemma InvMeansFreshDataOk(s: System)
    requires Inv(s)
    ensures FreshDataOk(s)
  {
  }

  /** Draining when nothing after the arriving packet is buffered. */
  lemma DrainOne(r: S.ServerState, p: Packet)
    requires r.window.Valid() && p.seqNum == r.window.lower
    requires r.window.lower + 1 < r.window.upper ==> !r.window.Holds(r.window.lower + 1)
    ensures S.Drain(r, p).output == r.output + p.payload
    ensures S.Drain(r, p).window == Move(Insert(r.window, p.payload, p.seqNum), r.window.lower + 1)
  {
    var w := Insert(r.window, p.payload, p.seqNum);
    if w.lower + 1 < w.upper {
      ModInjective(w.lower, w.lower + 1, w.size);
    }
    assert w.Holds(w.lower);
    S.RunEndIsFirstGap(w, w.lower, w.lower + 1);
    assert RunBytes(w, w.lower, w.lower + 1) == p.payload + RunBytes(w, w.lower + 1, w.lower + 1);
  }

  /** What an unguarded repetition does when it arrives: the stale bytes go into the file, which stays
      a prefix of the input only if they happen to be the next bytes of it. */
  lemma StaleRepeatReachesFile(s: System)
    requires Inv(s) && Resends(s.client, Timeout) && !HasUnacknowledged(s.client)
    requires s.server.mode == S.RecvFile && s.server.retryCount <= 10
    ensures
      var stale := Load(s.client.window, s.client.newSn);
      var p := DataPacket(s.client.newSn, stale);
      var t := Next(s, ClientTurn(Timeout));
      && Possible(t, ServerTurn(Got(p)))
      && var u := Next(t, ServerTurn(Got(p)));
         && u.server.output == s.server.output + stale
         && u.server.window.lower == s.client.newSn + 1
         && (u.server.output <= s.client.input <==> stale <= s.client.input[s.client.pos..])
  {
    var c := s.client;
    UnguardedMeansReading(c);
    var stale := Load(c.window, c.newSn);
    var p := DataPacket(c.newSn, stale);
    ClientTurnIs(s, Timeout, c.(retryCount := c.retryCount + 1), [p]);
    var t := Next(s, ClientTurn(Timeout));
    assert p in t.toServer && t.server == s.server;
    DrainOne(s.server, p);
    var r := S.Drain(s.server, p);
    ServerTurnIs(t, Got(p), r.(retryCount := 0), RequestReady(r.window.lower));
    OutputIsRead(c, s.server);
    PrefixOfRest(c.input, c.pos, stale);
  }

  /** A receiver level with the sender has written what the sender has read. */
  lemma OutputIsRead(c: C.ClientState, r: S.ServerState)
    requires ClientInv(c) && ServerInv(c, r) && r.window.lower == c.newSn
    ensures r.output == c.input[..c.pos]
  {
    JoinedIsPrefix(c.input, c.bufSize, c.newSn - 1);
  }

  lemma PrefixOfRest(input: seq<byte>, pos: nat, more: seq<byte>)
    requires pos <= |input|
    ensures input[..pos] + more <= input <==> more <= input[pos..]
  {
  }

  // ---------------------------------------------------------------- concrete bad runs

  /** The six turns: chunk 1 is sent, received and acknowledged, an acknowledgement is corrupt, a
      second passes in silence, and what the client repeats arrives. */
  function DuplicatingRun(): seq<Label> {
    [ClientTurn(Timeout), ServerTurn(Got(DataPacket(1, [97]))), ClientTurn(Got(RequestReady(2))),
     ClientTurn(Corrupt), ClientTurn(Timeout), ServerTurn(Got(DataPacket(2, [97])))]
  }

  /** Window 1, buffer 1, file "ab": the server ends up with "aa". */
  lemma CorruptAckDuplicatesChunk(s: System, run: seq<Label>)
    requires Initial(s) && s.client.window.size == 1 && s.client.bufSize == 1 && s.client.input == [97, 98]
    requires run == DuplicatingRun()
    ensures LegalRun(s, run) && Exec(s, run).server.output == [97, 97]
  {
    assert run[0] == ClientTurn(Timeout) && run[1] == ServerTurn(Got(DataPacket(1, [97])));
    assert run[2] == ClientTurn(Got(RequestReady(2))) && run[3] == ClientTurn(Corrupt);
    assert run[4] == ClientTurn(Timeout) && run[5] == ServerTurn(Got(DataPacket(2, [97])));
    var s1, s2 := FirstChunkArrives(s);
    var s3, s4 := AckThenCorrupt(s2);
    var s5, s6 := StaleChunkArrives(s4);
    SixTurns(s, run, s1, s2, s3, s4, s5, s6);
  }

  lemma StaleChunkArrives(s: System) returns (s1: System, s2: System)
    requires Inv(s) && Resends(s.client, Timeout) && !HasUnacknowledged(s.client)
    requires s.client.newSn == 2 && Load(s.client.window, 2) == [97]
    requires s.server.mode == S.RecvFile && s.server.retryCount == 0 && s.server.output == [97]
    ensures s1 == Next(s, ClientTurn(Timeout))
    ensures Possible(s1, ServerTurn(Got(DataPacket(2, [97])))) && s2 == Next(s1, ServerTurn(Got(DataPacket(2, [97]))))
    ensures s2.server.output == [97, 97]
  {
    StaleRepeatReachesFile(s);
    s1 := Next(s, ClientTurn(Timeout));
    s2 := Next(s1, ServerTurn(Got(DataPacket(2, [97]))));
  }

  /** One byte acknowledged by the receiver, the acknowledgement still on its way. */
  ghost predicate OneByteArrived(s: System) {
    && Inv(s)
    && s.client.window.size == 1 && s.client.bufSize == 1
    && s.client.mode == C.ServerData && s.client.newSn == 2
    && s.client.previousSn == 0 && s.client.retryCount == 0
    && Load(s.client.window, 2) == [97]
    && s.server.mode == S.RecvFile && s.server.retryCount == 0 && s.server.output == [97]
    && RequestReady(2) in s.toClient
  }

  lemma FirstChunkArrives(s: System) returns (s1: System, s2: System)
    requires Initial(s) && s.client.window.size == 1 && s.client.bufSize == 1 && s.client.input == [97, 98]
    ensures s1 == Next(s, ClientTurn(Timeout))
    ensures Possible(s1, ServerTurn(Got(DataPacket(1, [97])))) && s2 == Next(s1, ServerTurn(Got(DataPacket(1, [97]))))
    ensures OneByteArrived(s2)
  {
    var p := DataPacket(1, [97]);
    InitialInv(s);
    StepKeepsInv(s, ClientTurn(Timeout));
    s1 := Next(s, ClientTurn(Timeout));
    assert s.client.input[0..1] == [97];
    assert C.Step(s.client, Timeout).1 == [p];
    assert p in s1.toServer;
    StepKeepsInv(s1, ServerTurn(Got(p)));
    DrainOne(s1.server, p);
    s2 := Next(s1, ServerTurn(Got(p)));
    assert S.Step(s1.server, Got(p)).1 == [RequestReady(2)];
  }

  lemma AckThenCorrupt(s2: System) returns (s3: System, s4: System)
    requires OneByteArrived(s2)
    ensures s3 == Next(s2, ClientTurn(Got(RequestReady(2))))
    ensures Possible(s3, ClientTurn(Corrupt)) && s4 == Next(s3, ClientTurn(Corrupt))
    ensures Inv(s4) && Resends(s4.client, Timeout) && !HasUnacknowledged(s4.client)
    ensures s4.client.newSn == 2 && Load(s4.client.window, 2) == [97]
    ensures s4.server == s2.server
  {
    StepKeepsInv(s2, ClientTurn(Got(RequestReady(2))));
    s3 := Next(s2, ClientTurn(Got(RequestReady(2))));
    StepKeepsInv(s3, ClientTurn(Corrupt));
    s4 := Next(s3, ClientTurn(Corrupt));
  }

  lemma SixTurns(s: System, run: seq<Label>, s1: System, s2: System, s3: System, s4: System, s5: System, s6: System)
    requires |run| == 6 && s.Valid() && s1.Valid() && s2.Valid() && s3.Valid() && s4.Valid() && s5.Valid() && s6.Valid()
    requires Possible(s, run[0]) && s1 == Next(s, run[0])
    requires Possible(s1, run[1]) && s2 == Next(s1, run[1])
    requires Possible(s2, run[2]) && s3 == Next(s2, run[2])
    requires Possible(s3, run[3]) && s4 == Next(s3, run[3])
    requires Possible(s4, run[4]) && s5 == Next(s4, run[4])
    requires Possible(s5, run[5]) && s6 == Next(s5, run[5])
    ensures LegalRun(s, run) && Exec(s, run) == s6
  {
    OneMoreTurn(s5, run[5..], s6);
    OneMoreTurn(s4, run[4..], s5);
    OneMoreTurn(s3, run[3..], s4);
    OneMoreTurn(s2, run[2..], s3);
    OneMoreTurn(s1, run[1..], s2);
    OneMoreTurn(s, run, s1);
  }
}

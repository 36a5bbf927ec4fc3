/** Whole runs of the file transfer: what holds after any number of turns of either side. */
module Runs {
  import opened Chunks
  import opened Packets
  import opened Windowing
  import opened Transfer
  import C = UdpClient
  import S = UdpServer

  ghost predicate LegalRun(s: System, run: seq<Label>)
    requires s.Valid()
    decreases |run|
  {
    run == [] || (Possible(s, run[0]) && LegalRun(Next(s, run[0]), run[1..]))
  }

  ghost function Exec(s: System, run: seq<Label>): (t: System)
    requires s.Valid() && LegalRun(s, run)
    ensures t.Valid() && t.client.input == s.client.input && t.client.bufSize == s.client.bufSize
    decreases |run|
  {
    if run == [] then s else Exec(Next(s, run[0]), run[1..])
  }

  /** Every repetition in the run repeats something the client has sent. */
  ghost predicate GuardedRun(s: System, run: seq<Label>)
    requires s.Valid() && LegalRun(s, run)
    decreases |run|
  {
    run == [] || (Guarded(s, run[0]) && GuardedRun(Next(s, run[0]), run[1..]))
  }

  /** A run is its first turn and a run from there. */
  lemma OneMoreTurn(s: System, run: seq<Label>, t: System)
    requires s.Valid() && run != [] && Possible(s, run[0]) && Next(s, run[0]) == t && LegalRun(t, run[1..])
    ensures LegalRun(s, run) && Exec(s, run) == Exec(t, run[1..])
    ensures GuardedRun(s, run) <==> Guarded(s, run[0]) && GuardedRun(t, run[1..])
  {
  }

  lemma {:induction false} RunKeepsInv(s: System, run: seq<Label>)
    requires Inv(s) && LegalRun(s, run) && GuardedRun(s, run)
    ensures Inv(Exec(s, run))
    decreases |run|
  {
    if run != [] {
      StepKeepsInv(s, run[0]);
      RunKeepsInv(Next(s, run[0]), run[1..]);
    }
  }

  /** The receiver's file is the chunks below its window edge, in order, each once; so it is a prefix
      of the input in every reachable state. */
  lemma FileIsPrefix(s: System, run: seq<Label>)
    requires Initial(s) && LegalRun(s, run) && GuardedRun(s, run)
    ensures var t := Exec(s, run);
            && t.server.window.lower >= 1
            && t.server.output == Joined(s.client.input, s.client.bufSize, t.server.window.lower - 1)
            && t.server.output <= s.client.input
  {
    InitialInv(s);
    RunKeepsInv(s, run);
    JoinedIsPrefix(s.client.input, s.client.bufSize, Exec(s, run).server.window.lower - 1);
  }

  lemma AllDeliveredMeansWholeFile(s: System)
    requires Inv(s) && DeclaredDone(s)
    ensures s.server.output == s.client.input
  {
    JoinedIsPrefix(s.client.input, s.client.bufSize, s.server.window.lower - 1);
  }

  /** The client exits successfully, or the server leaves the receiving states, only when the whole
      file has been written. */
  lemma DoneMeansWholeFile(s: System, run: seq<Label>)
    requires Initial(s) && LegalRun(s, run) && GuardedRun(s, run)
    requires DeclaredDone(Exec(s, run))
    ensures Exec(s, run).server.output == s.client.input
  {
    InitialInv(s);
    RunKeepsInv(s, run);
    AllDeliveredMeansWholeFile(Exec(s, run));
  }

  /** client.lower <= server.lower <= client.current == new_sn <= client.lower + win_sz; no data packet
      reaches the receiver's upper edge, and its "beyond the window" exit is never taken. */
  lemma WindowSandwich(s: System, run: seq<Label>)
    requires Initial(s) && LegalRun(s, run) && GuardedRun(s, run)
    ensures
      var t := Exec(s, run);
      && t.client.window.lower <= t.server.window.lower <= t.client.window.current
      && t.client.window.current == t.client.newSn <= t.client.window.lower + t.client.window.size
      && t.server.mode != S.Exited(S.BeyondWindow)
      && forall p :: p in t.toServer ==> p.seqNum < t.server.window.upper
  {
    InitialInv(s);
    RunKeepsInv(s, run);
    var t := Exec(s, run);
    forall p | p in t.toServer
      ensures p.seqNum < t.server.window.upper
    {
      DataStaysBelowUpper(t, p);
    }
  }

  /** A data packet the receiver could still accept carries the chunk of its number. */
  lemma FreshDataIsRight(s: System, run: seq<Label>, p: Packet)
    requires Initial(s) && LegalRun(s, run) && GuardedRun(s, run)
    requires p in Exec(s, run).toServer && p.flag == FLAG_DATA_PACKET
    requires p.seqNum >= Exec(s, run).server.window.lower
    ensures 1 <= p.seqNum && p.payload == Chunk(s.client.input, s.client.bufSize, p.seqNum)
  {
    InitialInv(s);
    RunKeepsInv(s, run);
    var t := Exec(s, run);
    assert ToServerOk(t.client, t.server.window.lower, p);
  }

  /** A reject the client has not moved past is answered with the right chunk; an older one is
      answered with a packet the receiver discards. */
  lemma RejectsAreServed(s: System, run: seq<Label>, p: Packet)
    requires Initial(s) && LegalRun(s, run) && GuardedRun(s, run)
    requires p in Exec(s, run).toClient && p.flag == FLAG_SREJ
    ensures
      var t := Exec(s, run);
      && 1 <= p.seqNum < t.client.newSn
      && (p.seqNum >= t.client.window.lower ==>
            Load(t.client.window, p.seqNum) == Chunk(s.client.input, s.client.bufSize, p.seqNum))
      && (p.seqNum < t.client.window.lower ==> p.seqNum < t.server.window.lower)
  {
    InitialInv(s);
    RunKeepsInv(s, run);
    var t := Exec(s, run);
    assert ToClientOk(t.client, t.server.window.lower, p);
  }

  // ---------------------------------------------------------------- which runs are guarded

  /** A corrupt acknowledgement reaches the client while it has nothing unacknowledged and has not
      yet found the end of the file. */
  predicate CorruptOnEmptyWindow(s: System, l: Label) {
    && l == ClientTurn(Corrupt) && s.client.mode == C.ServerData
    && s.client.window.lower == s.client.window.current && s.client.previousSn != s.client.window.lower
  }

  ghost predicate AvoidsCorruptOnEmpty(s: System, run: seq<Label>)
    requires s.Valid() && LegalRun(s, run)
    decreases |run|
  {
    run == [] || (!CorruptOnEmptyWindow(s, run[0]) && AvoidsCorruptOnEmpty(Next(s, run[0]), run[1..]))
  }

  /** What the full-window route and the end-of-file route into ACK establish by themselves. */
  ghost predicate AckJustified(c: C.ClientState) {
    c.mode == C.AckData && c.previousSn != c.window.lower ==> HasUnacknowledged(c)
  }

  lemma StepKeepsAckJustified(s: System, l: Label)
    requires Inv(s) && Possible(s, l) && AckJustified(s.client)
    ensures AckJustified(Next(s, l).client) <==> !CorruptOnEmptyWindow(s, l)
  {
  }

  /** A corrupt acknowledgement on an empty window is the only way to an unguarded repetition. */
  lemma {:induction false} OnlyCorruptionUnguards(s: System, run: seq<Label>)
    requires Inv(s) && AckJustified(s.client) && LegalRun(s, run) && AvoidsCorruptOnEmpty(s, run)
    ensures GuardedRun(s, run)
    decreases |run|
  {
    if run != [] {
      StepKeepsInv(s, run[0]);
      StepKeepsAckJustified(s, run[0]);
      OnlyCorruptionUnguards(Next(s, run[0]), run[1..]);
    }
  }

  /** So a run in which the client never sees a corrupt packet on an empty window is safe. */
  lemma CleanRunsAreSafe(s: System, run: seq<Label>)
    requires Initial(s) && LegalRun(s, run) && AvoidsCorruptOnEmpty(s, run)
    ensures GuardedRun(s, run)
    ensures Exec(s, run).server.output <= s.client.input
    ensures DeclaredDone(Exec(s, run)) ==> Exec(s, run).server.output == s.client.input
  {
    InitialInv(s);
    OnlyCorruptionUnguards(s, run);
    FileIsPrefix(s, run);
    if DeclaredDone(Exec(s, run)) {
      DoneMeansWholeFile(s, run);
    }
  }
}

/** When the transfer of Program_3 can still complete: exactly when, even if every packet in flight is
    lost for good, and exactly when the client needs its last acknowledgement a second time. */
module Completion {
  import opened Packets
  import opened Windowing
  import opened Transfer
  import opened Runs
  import C = UdpClient
  import S = UdpServer

  ghost predicate Finished(s: System) {
    && s.client.mode == C.Exited(true) && s.server.mode == S.Exited(S.ClientEnded)
    && s.server.output == s.client.input
  }

  /** Some guarded run from here ends with both sides done and the file complete. */
  ghost predicate CanFinish(s: System)
    requires s.Valid()
  {
    exists run :: LegalRun(s, run) && GuardedRun(s, run) && Finished(Exec(s, run))
  }

  /** Some run from here does, guarded or not. */
  ghost predicate CanComplete(s: System)
    requires s.Valid()
  {
    exists run :: LegalRun(s, run) && Finished(Exec(s, run))
  }

  /** Every packet in flight disappears. */
  function LoseAll(s: System): System {
    s.(toServer := {}, toClient := {})
  }

  /** Something is unacknowledged, or part of the file is unread. */
  predicate Unfinished(c: C.ClientState) {
    c.window.lower < c.newSn || c.pos < |c.input|
  }

  /** The server is receiving and will look at the next packet. */
  predicate ServerAlive(r: S.ServerState) {
    r.mode == S.Recover || (r.mode == S.RecvFile && r.retryCount <= 10)
  }

  /** Both programs are running and the client can still repeat a packet and hear the answer. */
  predicate Alive(s: System) {
    !s.client.mode.Exited? && s.client.retryCount <= 9 && ServerAlive(s.server)
  }

  /** Something is left to do, and both programs are able to do it. */
  predicate Recoverable(s: System) {
    Alive(s) && Unfinished(s.client)
  }

  /** What holds beside the invariant: only the client declares the end. */
  ghost predicate Tidy(s: System) {
    && Inv(s)
    && (s.client.mode == C.FileData || s.client.mode == C.ServerData ==> s.client.retryCount == 0)
    && (s.server.mode == S.Recover ==> s.server.window.lower < s.client.newSn && s.server.retryCount == 0)
    && (DeclaredDone(s) ==> s.client.mode == C.Exited(true))
  }

  ghost predicate Orderly(s: System) {
    Tidy(s) && AckJustified(s.client)
  }

  /** RECOVER is entered, with the retry count cleared, only by data ahead of the edge. */
  lemma RecoverIsBehind(s: System, poll: Poll)
    requires Tidy(s) && Possible(s, ServerTurn(poll))
    ensures var r := S.Step(s.server, poll).0;
            r.mode == S.Recover ==> r.window.lower < s.client.newSn && r.retryCount == 0
  {
  }

  lemma RetriesAreAcks(s: System, poll: Poll)
    requires Tidy(s) && Possible(s, ClientTurn(poll))
    ensures var c := C.Step(s.client, poll).0;
            && (c.mode == C.FileData || c.mode == C.ServerData ==> c.retryCount == 0)
            && c.newSn >= s.client.newSn
  {
  }

  /** Nothing but data is sent before the client exits. */
  lemma ClientEndsOnExit(s: System, poll: Poll)
    requires Tidy(s) && Possible(s, ClientTurn(poll))
    ensures var t := Next(s, ClientTurn(poll)); DeclaredDone(t) ==> t.client.mode == C.Exited(true)
  {
    var (c, sent) := C.Step(s.client, poll);
    assert forall p :: p in sent && p.flag != FLAG_DATA_PACKET ==> c.mode == C.Exited(true);
  }

  /** The server leaves the receiving states only on an EOF. */
  lemma ServerEndsOnEof(s: System, poll: Poll)
    requires Tidy(s) && Possible(s, ServerTurn(poll))
    ensures var t := Next(s, ServerTurn(poll)); DeclaredDone(t) ==> t.client.mode == C.Exited(true)
  {
    var (r, sent) := S.Step(s.server, poll);
    assert r.mode == S.Termination || r.mode == S.Exited(S.ClientEnded) ==>
        s.server.mode == S.Termination || (poll.Got? && poll.packet.flag == FLAG_EOF);
  }

  lemma StepKeepsTidy(s: System, l: Label)
    requires Tidy(s) && Possible(s, l) && Guarded(s, l)
    ensures Tidy(Next(s, l))
  {
    StepKeepsInv(s, l);
    match l
    case ClientTurn(poll) => RetriesAreAcks(s, poll); ClientEndsOnExit(s, poll);
    case ServerTurn(poll) => RecoverIsBehind(s, poll); ServerEndsOnEof(s, poll);
  }

  lemma StepKeepsOrderly(s: System, l: Label)
    requires Orderly(s) && Possible(s, l) && !CorruptOnEmptyWindow(s, l)
    ensures Orderly(Next(s, l))
  {
    StepKeepsTidy(s, l);
    StepKeepsAckJustified(s, l);
  }

  lemma {:induction false} RunKeepsTidy(s: System, run: seq<Label>)
    requires Tidy(s) && LegalRun(s, run) && GuardedRun(s, run)
    ensures Tidy(Exec(s, run))
    decreases |run|
  {
    if run != [] {
      StepKeepsTidy(s, run[0]);
      RunKeepsTidy(Next(s, run[0]), run[1..]);
    }
  }

  lemma {:induction false} RunKeepsAckJustified(s: System, run: seq<Label>)
    requires Tidy(s) && AckJustified(s.client) && LegalRun(s, run) && AvoidsCorruptOnEmpty(s, run)
    ensures AckJustified(Exec(s, run).client)
    decreases |run|
  {
    if run != [] {
      StepKeepsOrderly(s, run[0]);
      RunKeepsAckJustified(Next(s, run[0]), run[1..]);
    }
  }

  lemma LossKeepsTidy(s: System)
    requires Tidy(s)
    ensures Tidy(LoseAll(s))
  {
  }

  // ---------------------------------------------------------------- a run that completes

  lemma OneTurnEarlier(s: System, l: Label)
    requires s.Valid() && Possible(s, l) && Guarded(s, l) && CanFinish(Next(s, l))
    ensures CanFinish(s)
  {
    var rest :| LegalRun(Next(s, l), rest) && GuardedRun(Next(s, l), rest) && Finished(Exec(Next(s, l), rest));
    var run := [l] + rest;
    assert run[1..] == rest;
    OneMoreTurn(s, run, Next(s, l));
  }

  lemma {:induction false} RunEarlier(s: System, run: seq<Label>)
    requires s.Valid() && LegalRun(s, run) && GuardedRun(s, run) && CanFinish(Exec(s, run))
    ensures CanFinish(s)
    decreases |run|
  {
    if run != [] {
      RunEarlier(Next(s, run[0]), run[1..]);
      OneTurnEarlier(s, run[0]);
    }
  }

  /** Both packets of `exit_client` delivered in order. */
  lemma ServerHearsTheEnd(s: System)
    requires Inv(s) && s.client.mode == C.Exited(true)
    requires s.server.mode == S.RecvFile && s.server.retryCount <= 10
    requires EndOfFile() in s.toServer && EndConnection() in s.toServer
    ensures CanFinish(s)
  {
    var l1, l2 := ServerTurn(Got(EndOfFile())), ServerTurn(Got(EndConnection()));
    StepKeepsInv(s, l1);
    var s1 := Next(s, l1);
    assert s1.client == s.client && s1.server.mode == S.Termination;
    StepKeepsInv(s1, l2);
    var s2 := Next(s1, l2);
    assert s2.client == s.client && s2.server.mode == S.Exited(S.ClientEnded);
    AllDeliveredMeansWholeFile(s2);
    assert LegalRun(s2, []) && GuardedRun(s2, []) && Exec(s2, []) == s2;
    OneTurnEarlier(s1, l2);
    OneTurnEarlier(s, l1);
  }

  /** An acknowledgement of everything, taken by a client that has seen the end of the file. */
  lemma LastAckFinishes(s: System)
    requires Orderly(s) && Alive(s) && s.client.mode == C.ServerData && s.client.previousSn == s.client.newSn
    requires s.server.window.lower == s.client.newSn && RequestReady(s.client.newSn) in s.toClient
    ensures CanFinish(s)
  {
    var l := ClientTurn(Got(RequestReady(s.client.newSn)));
    StepKeepsInv(s, l);
    assert C.Step(s.client, l.poll).1 == [EndOfFile(), EndConnection()];
    ServerHearsTheEnd(Next(s, l));
    OneTurnEarlier(s, l);
  }

  /** The file ended with a full chunk: the end is only found by a read of nothing, and the client
      needs the last acknowledgement a second time. */
  lemma ExactMultipleFinishes(s: System)
    requires Orderly(s) && Alive(s) && s.client.mode == C.ServerData && !Unfinished(s.client)
    requires RequestReady(s.client.newSn) in s.toClient
    ensures CanFinish(s)
  {
    if s.client.previousSn == s.client.newSn {
      LastAckFinishes(s);
    } else {
      var l, ack := ClientTurn(Timeout), ClientTurn(Got(RequestReady(s.client.newSn)));
      StepKeepsOrderly(s, l);
      var s1 := Next(s, l);
      StepKeepsOrderly(s1, l);
      var s2 := Next(s1, l);
      assert s2.client.mode == C.AckData && s2.client.previousSn == s2.client.newSn;
      StepKeepsOrderly(s2, ack);
      LastAckFinishes(Next(s2, ack));
      OneTurnEarlier(s2, ack);
      OneTurnEarlier(s1, l);
      OneTurnEarlier(s, l);
    }
  }

  /** One silent turn of a client that is not waiting in ACK. */
  lemma SilentClientTurn(s: System)
    requires Orderly(s) && Alive(s) && Unfinished(s.client) && s.client.mode != C.AckData
    ensures var t := Next(s, ClientTurn(Timeout));
            && Orderly(t) && Alive(t) && t.server == s.server
            && t.client.window.lower == s.client.window.lower && t.client.retryCount == 0
            && Left(t) <= Left(s)
            && (t.client.mode == C.AckData ==> t.client.window.lower < t.client.newSn)
            && (t.client.mode != C.AckData ==> Unfinished(t.client))
            && (t.client.mode == C.AckData || t.client.newSn > s.client.newSn
                || (t.client == s.client.(mode := C.FileData) && s.client.mode == C.ServerData))
  {
    StepKeepsOrderly(s, ClientTurn(Timeout));
    var (c, sent) := C.Step(s.client, Timeout);
    assert s.client.mode == C.FileData ==> (c, sent) == C.FileStep(s.client);
  }

  /** In silence the client fills its window or reaches the end of the file, and then waits in ACK. */
  lemma {:induction false} ReachesAck(s: System) returns (run: seq<Label>, t: System)
    requires Orderly(s) && Alive(s) && Unfinished(s.client) && s.client.mode != C.AckData
    ensures LegalRun(s, run) && GuardedRun(s, run) && t == Exec(s, run)
    ensures forall k :: 0 <= k < |run| ==> run[k] == ClientTurn(Timeout)
    ensures Orderly(t) && t.client.mode == C.AckData && t.client.retryCount == 0 && t.server == s.server
    ensures t.client.window.lower == s.client.window.lower < t.client.newSn
    ensures Left(t) <= Left(s)
    decreases s.client.window.upper - s.client.newSn, s.client.mode == C.ServerData
  {
    var l := ClientTurn(Timeout);
    SilentClientTurn(s);
    var next := Next(s, l);
    var rest;
    if next.client.mode == C.AckData {
      rest, t := [], next;
    } else {
      rest, t := ReachesAck(next);
    }
    run := [l] + rest;
    assert run[1..] == rest;
    OneMoreTurn(s, run, next);
  }

  /** Twice the bytes and packets still to be handled, and one more while the server is in RECOVER. */
  ghost function Left(s: System): nat
    requires Inv(s)
  {
    2 * (|s.client.input| - s.client.pos + s.client.newSn - s.client.window.lower)
    + if s.server.mode == S.Recover then 1 else 0
  }

  /** The server's answer to a data packet at or below its edge: a request for its edge. Afterwards it
      is ahead of the packet, or has left RECOVER. */
  ghost predicate Answered(s: System, p: Packet, t: System) {
    && Orderly(t) && ServerAlive(t.server) && t.client == s.client
    && RequestReady(t.server.window.lower) in t.toClient
    && p.seqNum <= t.server.window.lower
    && (t.server.mode == S.Recover ==> s.server.mode == S.Recover && p.seqNum < t.server.window.lower)
    && (p.seqNum == t.server.window.lower ==> s.server.mode == S.Recover && t.server.mode == S.RecvFile)
  }

  lemma AnswersOldData(s: System, p: Packet)
    requires Orderly(s) && ServerAlive(s.server) && p in s.toServer && p.flag == FLAG_DATA_PACKET
    requires p.seqNum < s.server.window.lower
    ensures Answered(s, p, Next(s, ServerTurn(Got(p))))
  {
    StepKeepsOrderly(s, ServerTurn(Got(p)));
    var (r, sent) := S.Step(s.server, Got(p));
    assert r.window == s.server.window && sent == [RequestReady(r.window.lower)];
  }

  lemma AnswersInOrderData(s: System, p: Packet)
    requires Orderly(s) && ServerAlive(s.server) && p in s.toServer && p.flag == FLAG_DATA_PACKET
    requires p.seqNum == s.server.window.lower && s.server.mode == S.RecvFile
    ensures Answered(s, p, Next(s, ServerTurn(Got(p))))
  {
    StepKeepsOrderly(s, ServerTurn(Got(p)));
    DrainKeepsServerInv(s, p);
    var d := S.Drain(s.server, p);
    var (r, sent) := S.Step(s.server, Got(p));
    assert r.window == d.window && sent == [RequestReady(r.window.lower)];
  }

  lemma AnswersMissingData(s: System, p: Packet)
    requires Orderly(s) && ServerAlive(s.server) && p in s.toServer && p.flag == FLAG_DATA_PACKET
    requires p.seqNum == s.server.window.lower && s.server.mode == S.Recover
    ensures Answered(s, p, Next(s, ServerTurn(Got(p))))
  {
    StepKeepsOrderly(s, ServerTurn(Got(p)));
    FillKeepsServerInv(s, p);
    DataStaysBelowUpper(s, p);
    var d := S.Fill(s.server, p);
    var (r, sent) := S.Step(s.server, Got(p));
    assert r.window == d.window && sent == [RequestReady(r.window.lower)];
  }

  lemma ServerAnswers(s: System, p: Packet)
    requires Orderly(s) && ServerAlive(s.server) && p in s.toServer && p.flag == FLAG_DATA_PACKET
    requires p.seqNum <= s.server.window.lower
    ensures Answered(s, p, Next(s, ServerTurn(Got(p))))
  {
    if p.seqNum < s.server.window.lower {
      AnswersOldData(s, p);
    } else if s.server.mode == S.RecvFile {
      AnswersInOrderData(s, p);
    } else {
      AnswersMissingData(s, p);
    }
  }

  /** One repetition, its answer, and the client about to read that answer. */
  lemma RoundTrip(s: System) returns (t: System)
    requires Orderly(s) && Alive(s) && s.client.mode == C.AckData && HasUnacknowledged(s.client)
    ensures Orderly(t) && Alive(t)
    ensures t.client == s.client.(mode := C.ServerData, retryCount := 0)
    ensures RequestReady(t.server.window.lower) in t.toClient
    ensures s.client.window.lower <= t.server.window.lower
    ensures t.server.mode == S.Recover ==> s.server.mode == S.Recover && s.client.window.lower < t.server.window.lower
    ensures s.client.window.lower == t.server.window.lower ==> s.server.mode == S.Recover && t.server.mode == S.RecvFile
    ensures CanFinish(t) ==> CanFinish(s)
  {
    var s1, p := Repeats(s);
    ServerAnswers(s1, p);
    var l2 := ServerTurn(Got(p));
    var s2 := Next(s1, l2);
    t := HearsAnswer(s2);
    if CanFinish(t) {
      OneTurnEarlier(s2, ClientTurn(Got(RequestReady(s2.server.window.lower))));
      OneTurnEarlier(s1, l2);
      OneTurnEarlier(s, ClientTurn(Timeout));
    }
  }

  lemma Repeats(s: System) returns (s1: System, p: Packet)
    requires Orderly(s) && Alive(s) && s.client.mode == C.AckData && HasUnacknowledged(s.client)
    ensures s1 == Next(s, ClientTurn(Timeout)) && Orderly(s1) && s1.server == s.server
    ensures s1.client == s.client.(retryCount := s.client.retryCount + 1)
    ensures p in s1.toServer && p.flag == FLAG_DATA_PACKET && p.seqNum == s.client.window.lower
  {
    StepKeepsOrderly(s, ClientTurn(Timeout));
    s1 := Next(s, ClientTurn(Timeout));
    p := DataPacket(s.client.window.lower, Load(s.client.window, s.client.window.lower));
    assert C.Step(s.client, Timeout).1 == [p];
  }

  lemma HearsAnswer(s: System) returns (t: System)
    requires Orderly(s) && ServerAlive(s.server) && s.client.mode == C.AckData && s.client.retryCount <= 10
    requires RequestReady(s.server.window.lower) in s.toClient
    ensures t == Next(s, ClientTurn(Got(RequestReady(s.server.window.lower)))) && Orderly(t) && Alive(t)
    ensures t.client == s.client.(mode := C.ServerData, retryCount := 0)
    ensures t.server == s.server && t.toClient == s.toClient
  {
    var l := ClientTurn(Got(RequestReady(s.server.window.lower)));
    StepKeepsOrderly(s, l);
    t := Next(s, l);
  }

  /** Reading an answer that is not the last one moves the client up to the server's edge. */
  lemma ReadsAnswer(s: System)
    requires Orderly(s) && Alive(s) && s.client.mode == C.ServerData
    requires s.client.previousSn != s.server.window.lower && RequestReady(s.server.window.lower) in s.toClient
    ensures var t := Next(s, ClientTurn(Got(RequestReady(s.server.window.lower))));
            && Orderly(t) && Alive(t) && t.server == s.server
            && t.client == s.client.(window := Move(s.client.window, s.server.window.lower))
            && RequestReady(s.server.window.lower) in t.toClient
  {
  }

  /** Repeating the packet at the edge until there is none, then hearing the last answer. */
  lemma {:induction false} FinishesFrom(s: System)
    requires Orderly(s) && Alive(s) && Unfinished(s.client)
    ensures CanFinish(s)
    decreases Left(s)
  {
    var before, a := [], s;
    if s.client.mode != C.AckData {
      before, a := ReachesAck(s);
    }
    var t := RoundTrip(a);
    var r := t.server.window.lower;
    if r == t.client.previousSn {
      LastAckFinishes(t);
    } else {
      var l := ClientTurn(Got(RequestReady(r)));
      ReadsAnswer(t);
      var u := Next(t, l);
      if Unfinished(u.client) {
        FinishesFrom(u);
      } else {
        ExactMultipleFinishes(u);
      }
      OneTurnEarlier(t, l);
    }
    RunEarlier(s, before);
  }

  // ---------------------------------------------------------------- no run completes

  /** The client has given up, or does on its next turn. */
  predicate ClientGone(c: C.ClientState) {
    c.mode == C.Exited(false) || (c.mode == C.AckData && c.retryCount > 10)
  }

  predicate ServerGone(r: S.ServerState) {
    (r.mode.Exited? && r.mode.reason != S.ClientEnded) || (r.mode == S.RecvFile && r.retryCount > 10)
  }

  /** The server has not been told of the end, and nothing is in flight. */
  predicate Quiet(s: System) {
    s.toServer == {} && s.toClient == {} && s.server.mode != S.Termination && s.server.mode != S.Exited(S.ClientEnded)
  }

  /** The client has one repetition left, and nothing to hear before it gives up. */
  predicate LastRepetition(s: System) {
    Quiet(s) && s.client.mode == C.AckData && s.client.retryCount == 10
  }

  /** The client is gone and the server will not hear of the end. */
  predicate EndLost(s: System) {
    s.client.mode == C.Exited(true) && s.toServer == {} && s.server.mode != S.Exited(S.ClientEnded)
  }

  /** Everything is acknowledged and read, and every acknowledgement in flight is for more than that:
      the client repeats what it has not sent, and is answered with what it does not wait for. */
  ghost predicate Deserted(s: System) {
    var n := s.client.newSn;
    && s.client.pos == |s.client.input| && (s.client.previousSn == 0 || s.client.previousSn == n)
    && 1 <= n <= s.client.window.lower <= s.server.window.lower
    && s.client.mode != C.Exited(true) && (s.server.mode == S.RecvFile || ServerGone(s.server))
    && (forall p :: p in s.toServer ==> p.flag == FLAG_DATA_PACKET && n <= p.seqNum <= s.server.window.lower)
    && (forall p :: p in s.toClient ==> p.flag == FLAG_RR && n < p.seqNum <= s.server.window.lower)
  }

  ghost predicate Doomed(s: System) {
    ClientGone(s.client) || ServerGone(s.server) || LastRepetition(s) || EndLost(s) || Deserted(s)
  }

  lemma GoneStaysGone(s: System, l: Label)
    requires s.Valid() && Possible(s, l)
    ensures ClientGone(s.client) ==> ClientGone(Next(s, l).client)
    ensures ServerGone(s.server) ==> ServerGone(Next(s, l).server)
  {
  }

  lemma LastRepetitionStep(s: System, l: Label)
    requires s.Valid() && LastRepetition(s) && Possible(s, l)
    ensures LastRepetition(Next(s, l)) || ClientGone(Next(s, l).client)
  {
  }

  lemma EndLostStep(s: System, l: Label)
    requires s.Valid() && EndLost(s) && Possible(s, l)
    ensures EndLost(Next(s, l))
  {
  }

  lemma DesertedClientStep(s: System, poll: Poll)
    requires s.Valid() && Deserted(s) && Possible(s, ClientTurn(poll))
    ensures Deserted(Next(s, ClientTurn(poll)))
  {
  }

  lemma DesertedServerStep(s: System, poll: Poll)
    requires s.Valid() && Deserted(s) && Possible(s, ServerTurn(poll)) && !ServerGone(s.server)
    ensures Deserted(Next(s, ServerTurn(poll)))
  {
    if poll.Got? && poll.packet.seqNum == s.server.window.lower {
      S.DrainDeliversRun(s.server, poll.packet);
    }
  }

  lemma DoomedStep(s: System, l: Label)
    requires s.Valid() && Doomed(s) && Possible(s, l)
    ensures Doomed(Next(s, l))
  {
    GoneStaysGone(s, l);
    if ClientGone(s.client) || ServerGone(s.server) {
    } else if LastRepetition(s) {
      LastRepetitionStep(s, l);
    } else if EndLost(s) {
      EndLostStep(s, l);
    } else {
      match l
      case ClientTurn(poll) => DesertedClientStep(s, poll);
      case ServerTurn(poll) => DesertedServerStep(s, poll);
    }
  }

  lemma {:induction false} DoomedNeverFinishes(s: System, run: seq<Label>)
    requires s.Valid() && Doomed(s) && LegalRun(s, run)
    ensures !Finished(Exec(s, run))
    decreases |run|
  {
    if run != [] {
      DoomedStep(s, run[0]);
      DoomedNeverFinishes(Next(s, run[0]), run[1..]);
    }
  }

  lemma DoomedCannotComplete(s: System)
    requires s.Valid() && Doomed(s)
    ensures !CanComplete(s) && !CanFinish(s)
  {
    forall run | LegalRun(s, run)
      ensures !Finished(Exec(s, run))
    {
      DoomedNeverFinishes(s, run);
    }
  }

  /** A client that waits in ACK with nothing it may repeat, in a quiet network. */
  ghost predicate Stuck(s: System) {
    Quiet(s) && s.client.mode == C.AckData && !AckJustified(s.client)
  }

  lemma StuckStep(s: System, l: Label)
    requires s.Valid() && Stuck(s) && Possible(s, l) && Guarded(s, l)
    ensures Stuck(Next(s, l)) || ClientGone(Next(s, l).client)
  {
  }

  lemma {:induction false} StuckNeverFinishes(s: System, run: seq<Label>)
    requires s.Valid() && Stuck(s) && LegalRun(s, run) && GuardedRun(s, run)
    ensures !Finished(Exec(s, run))
    decreases |run|
  {
    if run != [] {
      var t := Next(s, run[0]);
      StuckStep(s, run[0]);
      if Stuck(t) {
        StuckNeverFinishes(t, run[1..]);
      } else {
        DoomedNeverFinishes(t, run[1..]);
      }
    }
  }

  lemma StuckCannotFinish(s: System)
    requires s.Valid() && Stuck(s)
    ensures !CanFinish(s)
  {
    forall run | LegalRun(s, run) && GuardedRun(s, run)
      ensures !Finished(Exec(s, run))
    {
      StuckNeverFinishes(s, run);
    }
  }

  // ---------------------------------------------------------------- exactly when

  /** With nothing in flight, everything but a finished and a recoverable transfer is doomed. */
  lemma LostOrRecoverable(s: System)
    requires Tidy(s) && s.toServer == {} && s.toClient == {}
    ensures Finished(s) || Recoverable(s) || Doomed(s)
  {
    if s.client.mode == C.Exited(true) && s.server.mode == S.Exited(S.ClientEnded) {
      AllDeliveredMeansWholeFile(s);
    }
  }

  lemma FinishedCanFinish(s: System)
    requires s.Valid() && Finished(s)
    ensures CanFinish(s)
  {
    assert LegalRun(s, []) && GuardedRun(s, []) && Exec(s, []) == s;
  }

  /** After any guarded run: if every packet in flight is now lost, the transfer can still complete
      exactly when it has already, or when something is unread or unacknowledged, the client has used
      at most nine retries, the server is listening, and the client is not waiting in ACK with nothing
      to repeat. */
  lemma TotalLossIsSurvivable(s: System, run: seq<Label>)
    requires Initial(s) && LegalRun(s, run) && GuardedRun(s, run)
    ensures
      var t := Exec(s, run);
      && (CanFinish(LoseAll(t)) <==> Finished(t) || (Recoverable(t) && AckJustified(t.client)))
      && (CanComplete(LoseAll(t)) ==> Finished(t) || Recoverable(t))
  {
    InitialInv(s);
    RunKeepsTidy(s, run);
    LossKeepsTidy(Exec(s, run));
    var u := LoseAll(Exec(s, run));
    LostOrRecoverable(u);
    if Finished(u) {
      FinishedCanFinish(u);
    } else if !Recoverable(u) {
      DoomedCannotComplete(u);
    } else if AckJustified(u.client) {
      FinishesFrom(u);
    } else {
      StuckCannotFinish(u);
    }
  }

  /** So after a run in which the client saw no corrupt packet on an empty window, no run at all
      completes a transfer that is neither finished nor recoverable, and a guarded one completes any
      other. */
  lemma CleanRunsRecover(s: System, run: seq<Label>)
    requires Initial(s) && LegalRun(s, run) && AvoidsCorruptOnEmpty(s, run)
    ensures
      var t := Exec(s, run);
      && (CanFinish(LoseAll(t)) <==> Finished(t) || Recoverable(t))
      && (CanComplete(LoseAll(t)) <==> Finished(t) || Recoverable(t))
  {
    InitialInv(s);
    OnlyCorruptionUnguards(s, run);
    RunKeepsAckJustified(s, run);
    TotalLossIsSurvivable(s, run);
  }

  /** In particular a transfer can complete exactly when the file is not empty: no acknowledgement is
      ever sent for an empty one. */
  lemma CompletesIffNonEmpty(s: System)
    requires Initial(s)
    ensures CanFinish(s) <==> s.client.input != []
    ensures CanComplete(s) <==> s.client.input != []
  {
    assert LegalRun(s, []) && AvoidsCorruptOnEmpty(s, []) && Exec(s, []) == s == LoseAll(s);
    CleanRunsRecover(s, []);
  }

  // ---------------------------------------------------------------- the last acknowledgement

  /** The client takes a request for `n` out of the network. */
  predicate TakesAck(s: System, l: Label, n: nat) {
    && s.client.mode == C.ServerData && l.ClientTurn? && l.poll.Got?
    && l.poll.packet.flag == FLAG_RR && l.poll.packet.seqNum == n
  }

  ghost predicate AckTaken(s: System, run: seq<Label>, n: nat)
    requires s.Valid() && LegalRun(s, run)
    decreases |run|
  {
    run != [] && (TakesAck(s, run[0], n) || AckTaken(Next(s, run[0]), run[1..], n))
  }

  /** The client has read the whole file, ending before number `n`, and has not exited with success. */
  ghost predicate AllRead(s: System, n: nat) {
    && s.client.newSn == n && s.client.pos == |s.client.input|
    && (s.client.previousSn == 0 || s.client.previousSn == n) && s.client.mode != C.Exited(true)
    && s.server.window.lower >= 1 && s.server.window.current >= 1
    && forall p :: p in s.toClient && p.flag == FLAG_RR ==> p.seqNum >= 1
  }

  lemma AllReadClientStep(s: System, poll: Poll, n: nat)
    requires s.Valid() && AllRead(s, n) && Possible(s, ClientTurn(poll)) && !TakesAck(s, ClientTurn(poll), n)
    ensures AllRead(Next(s, ClientTurn(poll)), n)
  {
  }

  lemma AllReadServerStep(s: System, poll: Poll, n: nat)
    requires s.Valid() && AllRead(s, n) && Possible(s, ServerTurn(poll))
    ensures AllRead(Next(s, ServerTurn(poll)), n)
  {
  }

  lemma AllReadStep(s: System, l: Label, n: nat)
    requires s.Valid() && AllRead(s, n) && Possible(s, l) && !TakesAck(s, l, n)
    ensures AllRead(Next(s, l), n)
  {
    match l
    case ClientTurn(poll) => AllReadClientStep(s, poll, n);
    case ServerTurn(poll) => AllReadServerStep(s, poll, n);
  }

  lemma {:induction false} SuccessTakesAck(s: System, run: seq<Label>, n: nat)
    requires s.Valid() && AllRead(s, n) && LegalRun(s, run) && Exec(s, run).client.mode == C.Exited(true)
    ensures AckTaken(s, run, n)
    decreases |run|
  {
    if !TakesAck(s, run[0], n) {
      AllReadStep(s, run[0], n);
      SuccessTakesAck(Next(s, run[0]), run[1..], n);
    }
  }

  /** Every run to the successful exit of the client has it take a request for `n`. */
  ghost predicate SuccessNeedsAck(s: System, n: nat)
    requires s.Valid()
  {
    forall run :: LegalRun(s, run) && Exec(s, run).client.mode == C.Exited(true) ==> AckTaken(s, run, n)
  }

  lemma ExitedNeedsNothing(s: System, n: nat)
    requires s.Valid() && s.client.mode == C.Exited(true)
    ensures !SuccessNeedsAck(s, n)
  {
    var run: seq<Label> := [];
    assert LegalRun(s, run) && Exec(s, run) == s && !AckTaken(s, run, n);
  }

  /** The client takes the acknowledgement of the whole file. It needs it once more, in every run to
      success, exactly when it had not yet found the end of the file: when the last read was a full
      one and the read of nothing has not happened. */
  lemma SecondAckNeeded(s: System)
    requires Inv(s) && s.client.mode == C.ServerData && s.client.pos == |s.client.input|
    requires RequestReady(s.client.newSn) in s.toClient
    ensures
      var n := s.client.newSn;
      var t := Next(s, ClientTurn(Got(RequestReady(n))));
      s.client.previousSn == 0 <==> SuccessNeedsAck(t, n)
  {
    var n := s.client.newSn;
    var t := Next(s, ClientTurn(Got(RequestReady(n))));
    if s.client.previousSn == 0 {
      forall run | LegalRun(t, run) && Exec(t, run).client.mode == C.Exited(true)
        ensures AckTaken(t, run, n)
      {
        SuccessTakesAck(t, run, n);
      }
    } else {
      ExitedNeedsNothing(t, n);
    }
  }
}

/** What the memory that `windowreset` does not clear does to a transfer, for every block that `malloc`
    can return as `occupied`: exactly which blocks keep the file a prefix of the input. */
module StaleMarks {
  import opened Packets
  import opened Windowing
  import opened Transfer
  import opened Runs
  import opened Faults
  import C = UdpClient
  import S = UdpServer

  /** Some guarded run from here writes something that is not the input. */
  ghost predicate CanSpoil(s: System)
    requires s.Valid()
  {
    exists run :: LegalRun(s, run) && GuardedRun(s, run) && !(Exec(s, run).server.output <= s.client.input)
  }

  lemma SpoiltNow(s: System)
    requires s.Valid() && !(s.server.output <= s.client.input)
    ensures CanSpoil(s)
  {
    var run: seq<Label> := [];
    assert LegalRun(s, run) && GuardedRun(s, run) && Exec(s, run) == s;
  }

  lemma SpoiltOneTurnEarlier(s: System, l: Label)
    requires s.Valid() && Possible(s, l) && Guarded(s, l) && CanSpoil(Next(s, l))
    ensures CanSpoil(s)
  {
    var t := Next(s, l);
    var rest :| LegalRun(t, rest) && GuardedRun(t, rest) && !(Exec(t, rest).server.output <= t.client.input);
    var run := [l] + rest;
    assert run[1..] == rest;
    OneMoreTurn(s, run, t);
  }

  // ---------------------------------------------------------------- a client sending zeros

  /** The client sends a file of zeros, as long as its window, byte by byte and hears nothing. */
  ghost predicate Sending(c: C.ClientState) {
    && c.Valid() && c.mode == C.FileData && c.bufSize == 1
    && 1 <= c.newSn == c.window.current <= c.window.size && c.window.upper == c.window.size + 1
    && |c.input| == c.window.size && c.pos == c.newSn - 1
    && forall k :: 0 <= k < |c.input| ==> c.input[k] == 0
  }

  /** Two turns of such a client put its next byte in flight. */
  lemma SendsByte(s: System) returns (t: System)
    requires s.Valid() && Sending(s.client)
    ensures t.Valid() && t.server == s.server && t.client.input == s.client.input
    ensures t.client.newSn == s.client.newSn + 1 && t.client.window.size == s.client.window.size
    ensures t.client.newSn <= t.client.window.size ==> Sending(t.client)
    ensures s.toServer <= t.toServer && DataPacket(s.client.newSn, [0]) in t.toServer
    ensures CanSpoil(t) ==> CanSpoil(s)
  {
    var l := ClientTurn(Timeout);
    var c := s.client;
    assert c.input[c.pos..c.pos + 1] == [0];
    var (d, sent) := C.FileStep(c);
    assert d.mode == C.ServerData && sent == [DataPacket(c.newSn, [0])];
    var s1 := Next(s, l);
    assert DataPacket(c.newSn, [0]) in s1.toServer;
    t := Next(s1, l);
    assert t == s1.(client := d.(mode := C.FileData));
    if CanSpoil(t) {
      SpoiltOneTurnEarlier(s1, l);
      SpoiltOneTurnEarlier(s, l);
    }
  }

  // ---------------------------------------------------------------- a mark ahead of the edge

  /** If the slot after the edge is marked, the packet at the edge takes what it holds into the file. */
  lemma StaleMarkReachesFile(r: S.ServerState, p: Packet)
    requires r.window.Valid() && r.mode == S.RecvFile && r.retryCount <= 10
    requires p.flag == FLAG_DATA_PACKET && p.seqNum == r.window.lower
    requires r.window.lower + 1 < r.window.upper && r.window.Holds(r.window.lower + 1)
    ensures r.output + p.payload + Load(r.window, r.window.lower + 1) <= S.Step(r, Got(p)).0.output
  {
    var l := r.window.lower;
    var v := Insert(r.window, p.payload, l);
    ModInjective(l, l + 1, v.size);
    assert v.Holds(l) && v.Holds(l + 1) && Load(v, l) == p.payload && Load(v, l + 1) == Load(r.window, l + 1);
    var e := RunEnd(v, l);
    assert e == RunEnd(v, l + 1) == RunEnd(v, l + 2);
    assert RunBytes(v, l, e) == p.payload + RunBytes(v, l + 1, e);
    assert RunBytes(v, l + 1, e) == Load(v, l + 1) + RunBytes(v, l + 2, e);
    assert r.output + RunBytes(v, l, e) == (r.output + p.payload + Load(v, l + 1)) + RunBytes(v, l + 2, e);
  }

  /** The receiver waits for number `l` and holds ones in every later slot, that of `f` marked. */
  ghost predicate Trapped(r: S.ServerState, l: nat, f: nat) {
    && r.window.Valid() && r.mode == S.RecvFile && r.retryCount == 0
    && r.window.lower == l < f <= r.window.size && r.window.Holds(f)
    && forall q :: l < q <= r.window.size ==> Load(r.window, q) == [1]
  }

  lemma TrapStays(r: S.ServerState, l: nat, f: nat)
    requires Trapped(r, l, f) && 1 <= l && !r.window.Holds(l + 1)
    ensures Trapped(S.Step(r, Got(DataPacket(l, [0]))).0, l + 1, f)
  {
    var p := DataPacket(l, [0]);
    DrainOne(r, p);
    var v := Insert(r.window, [0], l);
    var w := Move(v, l + 1);
    assert S.Step(r, Got(p)).0.window == w;
    ModInjective(l, f, v.size);
    MoveHolds(v, l + 1, f);
    forall q | l + 1 < q <= w.size
      ensures Load(w, q) == [1]
    {
      ModInjective(l, q, v.size);
      assert Load(w, q) == Load(r.window, q);
    }
  }

  /** In-order bytes march up to the first mark, whose slot then goes into the file. */
  lemma {:induction false} MarchSpoils(s: System, f: nat)
    requires s.Valid() && Sending(s.client) && Trapped(s.server, s.client.newSn, f)
    requires s.server.window.size == s.client.window.size
    ensures CanSpoil(s)
    decreases f - s.client.newSn
  {
    var n := s.client.newSn;
    var p := DataPacket(n, [0]);
    var t := SendsByte(s);
    var l := ServerTurn(Got(p));
    var u := Next(t, l);
    if s.server.window.Holds(n + 1) {
      StaleMarkReachesFile(s.server, p);
      assert u.server.output[|s.server.output| + 1] == 1;
      SpoiltNow(u);
    } else {
      TrapStays(s.server, n, f);
      assert u.client == t.client;
      MarchSpoils(u, f);
    }
    SpoiltOneTurnEarlier(t, l);
  }

  // ---------------------------------------------------------------- only number 1 marked

  /** The receiver starts with slot 1 marked, a one in it, and at least two free slots after it. */
  ghost predicate MarkedAtOne(r: S.ServerState) {
    var w := r.window;
    && w.Valid() && w.lower == w.current == 1 && w.size >= 3 && w.Holds(1) && Load(w, 1) == [1]
    && !w.Holds(2) && !w.Holds(3)
  }

  /** Number 2, arriving twice before number 1, takes the slot of number 1 into the file. */
  lemma SecondCopySkipsFirst(r: S.ServerState)
    requires MarkedAtOne(r) && r.mode == S.RecvFile && r.retryCount == 0 && r.output == []
    ensures
      var p := DataPacket(2, [0]);
      var (once, _) := S.Step(r, Got(p));
      once.mode == S.Recover && S.Step(once, Got(p)).0.output == [1, 0]
  {
    var p := DataPacket(2, [0]);
    var w := r.window;
    var v := Insert(w, [0], 2).(current := 1);
    assert S.Step(r, Got(p)).0 == r.(mode := S.Recover, window := v);
    var x := Insert(v, [0], 2);
    ModInjective(1, 2, w.size);
    ModInjective(2, 3, w.size);
    assert x.Holds(1) && x.Holds(2) && !x.Holds(3);
    if w.size == 3 {
      assert x.upper == 4;
    }
    S.RunEndIsFirstGap(x, 1, 3);
    S.ScanStopsAtRunEnd(v, p);
    assert Load(x, 1) == [1] && Load(x, 2) == [0];
    var full := x.(current := 3);
    assert Load(full, 1) == Load(x, 1) && Load(full, 2) == Load(x, 2);
    assert RunBytes(full, 2, 3) == [0] + RunBytes(full, 3, 3);
    assert RunBytes(full, 1, 3) == [1] + RunBytes(full, 2, 3);
  }

  lemma DuplicateSpoils(s: System)
    requires s.Valid() && Sending(s.client) && s.client.newSn == 1 && s.client.window.size >= 3
    requires MarkedAtOne(s.server) && s.server.mode == S.RecvFile && s.server.retryCount == 0 && s.server.output == []
    ensures CanSpoil(s)
  {
    var p := DataPacket(2, [0]);
    var t := SendsByte(s);
    var u := SendsByte(t);
    var l := ServerTurn(Got(p));
    SecondCopySkipsFirst(u.server);
    var u1 := Next(u, l);
    var u2 := Next(u1, l);
    assert u2.server.output[0] == 1;
    SpoiltNow(u2);
    SpoiltOneTurnEarlier(u1, l);
    SpoiltOneTurnEarlier(u, l);
  }

  // ---------------------------------------------------------------- exactly which blocks are safe

  /** The system over this block with a one in every slot, about to send zeros. */
  function Garbled(occupied: seq<bool>): System {
    var n := |occupied|;
    var w := Reset(n, seq(n, _ => Slot(0, [1])), occupied);
    System(C.Start(seq(n, _ => 0), 1, w), S.Start(w), {}, {})
  }

  /** Every slot is that of a number of the first window. */
  lemma MarkedNumber(w: Win, k: nat)
    requires w.Valid() && k < w.size && w.occupied[k]
    ensures w.Holds(if k == 0 then w.size else k)
  {
    ModShift(0, w.size);
  }

  lemma HarmfulMarksSpoil(occupied: seq<bool>)
    requires occupied != [] && !HarmlessMarks(occupied)
    ensures FreshStart(Garbled(occupied)) && CanSpoil(Garbled(occupied))
  {
    var s := Garbled(occupied);
    var w := s.server.window;
    if f :| 2 <= f <= w.size && w.Holds(f) {
      MarchSpoils(s, f);
    } else {
      var k :| 0 <= k < w.size && occupied[k];
      MarkedNumber(w, k);
      assert w.Holds(1) && !w.Holds(2);
      assert MarkedAtOne(s.server);
      assert Sending(s.client);
      DuplicateSpoils(s);
    }
  }

  lemma InitialCannotSpoil(s: System)
    requires Initial(s)
    ensures !CanSpoil(s)
  {
    forall run | LegalRun(s, run) && GuardedRun(s, run)
      ensures Exec(s, run).server.output <= s.client.input
    {
      FileIsPrefix(s, run);
    }
  }

  /** For every window size and every initial `occupied` block: all guarded runs keep the file a prefix
      of the input, whatever the input, the buffer size and the other memory, exactly when the block
      has one slot, has two with that of number 2 free, or has no slot marked. */
  lemma OccupiedIsExact(occupied: seq<bool>)
    requires occupied != []
    ensures HarmlessMarks(occupied) <==>
            forall s :: FreshStart(s) && s.server.window.occupied == occupied ==> !CanSpoil(s)
  {
    if HarmlessMarks(occupied) {
      forall s | FreshStart(s) && s.server.window.occupied == occupied
        ensures !CanSpoil(s)
      {
        InitialCannotSpoil(s);
      }
    } else {
      HarmfulMarksSpoil(occupied);
      assert Garbled(occupied).server.window.occupied == occupied;
    }
  }
}

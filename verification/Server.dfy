/** The receiver of the file transfer (Program_3/udpServer.c), from the moment the output file is
    open: `ServerState` and its three state handlers as functions, and class `Server` in place. */
module UdpServer {
  import opened Bytes
  import opened Packets
  import opened Windowing

  /** `exitForkedServer` is one call in C; the reason says which of its call sites ran. */
  datatype Reason = RetriesExhausted | BeyondWindow | RecoverTimeout | ClientEnded

  /** `RET_RECVFILE_DATA`, `RET_RECOVER_PKTS`, `RET_TERMINATION`, or stopped. */
  datatype Mode = RecvFile | Recover | Termination | Exited(reason: Reason)

  datatype ServerState = ServerState(mode: Mode, retryCount: nat, window: Win, output: seq<byte>)

  function Start(window: Win): ServerState {
    ServerState(RecvFile, 0, window, [])
  }

  /** Inserting the in-order packet, writing the run it completes, and moving past that run. */
  function Drain(s: ServerState, p: Packet): ServerState
    requires s.window.Valid()
  {
    var w := Insert(s.window, p.payload, p.seqNum);
    var e := RunEnd(w, w.lower);
    s.(window := Move(w, e), output := s.output + RunBytes(w, w.lower, e))
  }

  function RecvFileStep(s: ServerState, poll: Poll): (ServerState, seq<Packet>)
    requires s.window.Valid()
  {
    if s.retryCount > 10 then
      (s.(mode := Exited(RetriesExhausted)), [])
    else if poll.Timeout? then
      (s.(mode := RecvFile, retryCount := s.retryCount + 1), [])
    else
      var s := s.(mode := RecvFile, retryCount := 0);
      if poll.Corrupt? then
        (s, [])
      else
        var p := poll.packet;
        if p.flag == FLAG_EOF then
          (s.(mode := Termination), [])
        else if p.flag != FLAG_DATA_PACKET then
          (s, [])
        else if p.seqNum == s.window.lower then
          var d := Drain(s, p);
          (d, [RequestReady(d.window.lower)])
        else if p.seqNum < s.window.lower then
          (s, [RequestReady(s.window.lower)])
        else if p.seqNum > s.window.upper then
          (s.(mode := Exited(BeyondWindow)), [])
        else
          var w := Insert(s.window, p.payload, p.seqNum);
          (s.(mode := Recover, window := w.(current := w.lower)), [SelectiveReject(w.lower)])
  }

  /** The scan of RECOVER, which looks at `upper` and `upper + 1` too: the first free index, if any. */
  function ScanGap(w: Win, i: nat): (gap: int)
    requires w.Valid()
    ensures gap == -1 || (i <= gap <= w.upper + 1 && !w.Holds(gap))
    decreases w.upper + 2 - i
  {
    if i > w.upper + 1 then -1 else if !w.Holds(i) then i else ScanGap(w, i + 1)
  }

  /** The window after inserting in RECOVER and scanning for the gap. */
  function Scanned(w: Win, p: Packet): Win
    requires w.Valid()
  {
    var v := Insert(w, p.payload, p.seqNum);
    var gap := ScanGap(v, v.lower);
    if gap >= 0 then v.(current := gap) else v
  }

  /** Writing and moving up to what the scan left in `current`. */
  function Fill(s: ServerState, p: Packet): ServerState
    requires s.window.Valid()
  {
    var v := Scanned(s.window, p);
    s.(window := Move(v, v.current), output := s.output + RunBytes(v, v.lower, v.current))
  }

  function RecoverStep(s: ServerState, poll: Poll): (ServerState, seq<Packet>)
    requires s.window.Valid()
  {
    match poll
    case Timeout => (s.(mode := Exited(RecoverTimeout)), [])
    case Corrupt => (s.(mode := Recover), [])
    case Got(p) =>
      if s.window.lower <= p.seqNum <= s.window.upper then
        var d := Fill(s, p);
        (d.(mode := RecvFile), [RequestReady(d.window.lower)])
      else
        (s.(mode := Recover), [RequestReady(s.window.current)])
  }

  function TerminationStep(s: ServerState, poll: Poll): (ServerState, seq<Packet>) {
    var s := s.(mode := Termination);
    (match poll
     case Timeout => s.(retryCount := s.retryCount + 1)
     case Corrupt => s
     case Got(p) => if p.flag == FLAG_END_CONNECTION then s.(mode := Exited(ClientEnded)) else s,
     [EndConnection()])
  }

  /** One turn of the loop in `forkedServer`. */
  function Step(s: ServerState, poll: Poll): (r: (ServerState, seq<Packet>))
    requires s.window.Valid() && !s.mode.Exited?
    ensures r.0.window.Valid() && r.0.window.size == s.window.size
  {
    if s.mode == RecvFile then RecvFileStep(s, poll)
    else if s.mode == Recover then RecoverStep(s, poll)
    else TerminationStep(s, poll)
  }

  // ---------------------------------------------------------------- what the two loops deliver

  lemma RunEndIsFirstGap(w: Win, i: nat, e: nat)
    requires w.Valid() && i <= e <= w.upper
    requires forall k :: i <= k < e ==> w.Holds(k)
    requires e < w.upper ==> !w.Holds(e)
    ensures RunEnd(w, i) == e
    decreases w.upper - i
  {
  }

  lemma {:induction false} FullRingHolds(w: Win, i: nat)
    requires w.Valid() && w.lower <= i
    requires forall k :: w.lower <= k < w.upper ==> w.Holds(k)
    ensures w.Holds(i)
    decreases i
  {
    if i >= w.upper {
      FullRingHolds(w, i - w.size);
      ModShift(i - w.size, w.size);
    }
  }

  /** The scan runs past the end of the ring, but what it finds is never outside the live range. */
  lemma {:induction false} ScanFindsRunEnd(w: Win, i: nat)
    requires w.Valid() && w.lower <= i <= w.upper
    requires forall k :: w.lower <= k < i ==> w.Holds(k)
    ensures ScanGap(w, i) == if RunEnd(w, i) < w.upper then RunEnd(w, i) else -1
    decreases w.upper - i
  {
    if i == w.upper {
      FullRingHolds(w, w.upper);
      FullRingHolds(w, w.upper + 1);
      assert ScanGap(w, i + 1) == ScanGap(w, i + 2) == -1;
    } else if w.Holds(i) {
      ScanFindsRunEnd(w, i + 1);
    }
  }

  /** The concatenation of `m[i]`, `m[i + 1]`, ..., `m[j - 1]`. */
  ghost function Concat(m: map<nat, seq<byte>>, i: nat, j: nat): seq<byte>
    requires forall k :: i <= k < j ==> k in m
    decreases j - i
  {
    if i < j then m[i] + Concat(m, i + 1, j) else []
  }

  lemma {:induction false} RunBytesIsConcat(w: Win, i: nat, j: nat)
    requires w.Valid() && w.lower <= i <= j <= w.upper
    requires forall k :: i <= k < j ==> w.Holds(k)
    ensures RunBytes(w, i, j) == Concat(Buffered(w), i, j)
    decreases j - i
  {
    if i < j {
      RunBytesIsConcat(w, i + 1, j);
    }
  }

  /** The state after delivering from buffer `m`: the maximal run of consecutive numbers from
      `lower` is appended and forgotten, everything later is kept. */
  ghost predicate DeliversRun(s: ServerState, m: map<nat, seq<byte>>, t: ServerState)
    requires s.window.Valid() && t.window.Valid()
  {
    var e := t.window.lower;
    && s.window.lower <= e <= s.window.upper
    && (forall k: nat :: s.window.lower <= k < e ==> k in m)
    && (e < s.window.upper ==> e !in m)
    && t.output == s.output + Concat(m, s.window.lower, e)
    && Buffered(t.window) == map k: nat | k in m && e <= k :: m[k]
  }

  /** Writing the run that starts at `lower` and moving to its end. */
  lemma DeliveryIsRun(s: ServerState, w: Win, e: nat)
    requires s.window.Valid() && w.Valid() && w.lower == s.window.lower && w.size == s.window.size
    requires w.lower <= e <= w.upper
    requires forall k :: w.lower <= k < e ==> w.Holds(k)
    requires e < w.upper ==> !w.Holds(e)
    ensures Move(w, e).Valid()
    ensures DeliversRun(s, Buffered(w), s.(window := Move(w, e), output := s.output + RunBytes(w, w.lower, e)))
  {
    RunBytesIsConcat(w, w.lower, e);
    MoveIsRestriction(w, e);
  }

  /** RECVFILE, packet `lower` arriving: exactly the maximal run is delivered, and it is not empty. */
  lemma DrainDeliversRun(s: ServerState, p: Packet)
    requires s.window.Valid() && p.seqNum == s.window.lower
    ensures DeliversRun(s, Buffered(s.window)[p.seqNum := p.payload], Drain(s, p))
    ensures Drain(s, p).window.lower > s.window.lower
  {
    var w := Insert(s.window, p.payload, p.seqNum);
    InsertIsUpdate(s.window, p.payload, p.seqNum, p.seqNum);
    assert w.Holds(w.lower);
    DeliveryIsRun(s, w, RunEnd(w, w.lower));
  }

  /** The number in whose place a packet from `lower` to `upper` is buffered. */
  function Place(w: Win, s: nat): (a: nat)
    requires w.Valid() && w.lower <= s <= w.upper
    ensures w.lower <= a < w.upper && (s < w.upper ==> a == s)
  {
    if s < w.upper then s else w.lower
  }

  lemma InsertInRange(w: Win, data: seq<byte>, s: nat)
    requires w.Valid() && w.lower <= s <= w.upper
    ensures Buffered(Insert(w, data, s)) == Buffered(w)[Place(w, s) := data]
  {
    if s < w.upper {
      InsertIsUpdate(w, data, s, s);
    } else {
      UpperAliasesLower(w, data);
    }
  }

  /** RECOVER, an in-range packet arriving: the run before the first gap is delivered; with no free
      slot nothing is written and the window keeps its bounds. A number equal to `upper` counts as
      `lower` here too. */
  lemma FillDeliversRun(s: ServerState, p: Packet)
    requires s.window.Valid() && s.window.current == s.window.lower
    requires s.window.lower <= p.seqNum <= s.window.upper
    ensures
      var m := Buffered(s.window)[Place(s.window, p.seqNum) := p.payload];
      var t := Fill(s, p);
      if forall k: nat :: s.window.lower <= k < s.window.upper ==> k in m
      then t.output == s.output && t.window.lower == s.window.lower && Buffered(t.window) == m
      else DeliversRun(s, m, t) && t.window.lower < s.window.upper
    ensures Fill(s, p).window.current == Fill(s, p).window.lower
  {
    var w := Insert(s.window, p.payload, p.seqNum);
    InsertInRange(s.window, p.payload, p.seqNum);
    var e := RunEnd(w, w.lower);
    ScanStopsAtRunEnd(s.window, p);
    if e < w.upper {
      BufferedIgnoresCurrent(w, e);
      assert e !in Buffered(w);
      DeliveryIsRun(s, w.(current := e), e);
    } else {
      BufferedIgnoresCurrent(w, w.lower);
      MoveIsRestriction(w.(current := w.lower), w.lower);
    }
  }

  /** RECVFILE, data ahead of the edge: it is buffered, nothing is written, and the packet at the edge
      is rejected. A number equal to `upper` would be buffered as if it were `lower`. */
  lemma EarlyDataIsBuffered(s: ServerState, p: Packet)
    requires s.window.Valid() && s.mode == RecvFile && s.retryCount <= 10
    requires p.flag == FLAG_DATA_PACKET && s.window.lower < p.seqNum <= s.window.upper
    ensures
      var (t, sent) := Step(s, Got(p));
      && Buffered(t.window) == Buffered(s.window)[Place(s.window, p.seqNum) := p.payload]
      && t.output == s.output && t.window.lower == t.window.current == s.window.lower
      && t.mode == Recover && sent == [SelectiveReject(s.window.lower)]
  {
    var w := Insert(s.window, p.payload, p.seqNum);
    InsertInRange(s.window, p.payload, p.seqNum);
    BufferedIgnoresCurrent(w, w.lower);
  }

  lemma BufferedIgnoresCurrent(w: Win, n: nat)
    requires w.Valid()
    ensures Buffered(w.(current := n)) == Buffered(w)
    ensures forall k :: w.(current := n).Holds(k) == w.Holds(k)
  {
  }

  /** The scan stops where the run does; on a full ring it leaves `current` alone. */
  lemma ScanStopsAtRunEnd(w: Win, p: Packet)
    requires w.Valid() && w.current == w.lower
    ensures
      var v := Insert(w, p.payload, p.seqNum);
      var e := RunEnd(v, v.lower);
      Scanned(w, p) == v.(current := if e < v.upper then e else v.lower)
  {
    var v := Insert(w, p.payload, p.seqNum);
    ScanFindsRunEnd(v, v.lower);
  }

  /** Writing one packet of a run. */
  lemma OutputThenRun(output: seq<byte>, w: Win, i: nat, j: nat)
    requires w.Valid() && i < j
    ensures output + RunBytes(w, i, j) == (output + Load(w, i)) + RunBytes(w, i + 1, j)
  {
    var rest := RunBytes(w, i + 1, j);
    assert output + (Load(w, i) + rest) == (output + Load(w, i)) + rest;
  }

  // ---------------------------------------------------------------- the receiver in place

  class Server {
    const window: CircularQWindow
    var retryCount: nat
    var output: seq<byte>

    ghost predicate Valid()
      reads this, window, window.ptr, window.occupied
    {
      window.Valid()
    }

    ghost function View(mode: Mode): ServerState
      reads this, window, window.ptr, window.occupied
    {
      ServerState(mode, retryCount, window.View(), output)
    }

    constructor (windowSize: nat, ptr: array<Slot>, occupied: array<bool>)
      requires 1 <= windowSize == ptr.Length == occupied.Length
      ensures Valid() && fresh(window) && window.ptr == ptr && window.occupied == occupied
      ensures View(RecvFile) == Start(Reset(windowSize, ptr[..], occupied[..]))
    {
      window := new CircularQWindow(windowSize, ptr, occupied);
      retryCount, output := 0, [];
    }

    method RecvFileData(poll: Poll) returns (ret: Mode, sent: seq<Packet>)
      requires Valid()
      modifies this, window, window.ptr, window.occupied
      ensures Valid()
      ensures (View(ret), sent) == RecvFileStep(old(View(RecvFile)), poll)
    {
      ret, sent := RecvFile, [];
      if retryCount > 10 {
        return Exited(RetriesExhausted), sent;
      }
      if poll.Timeout? {
        retryCount := retryCount + 1;
        return;
      }
      retryCount := 0;
      if poll.Corrupt? {
        return;
      }
      var p := poll.packet;
      if p.flag == FLAG_EOF {
        ret := Termination;
      } else if p.flag == FLAG_DATA_PACKET {
        if p.seqNum == window.lower {
          DrainRun(p);
          sent := [RequestReady(window.lower)];
        } else if p.seqNum < window.lower {
          sent := [RequestReady(window.lower)];
        } else if p.seqNum > window.upper {
          return Exited(BeyondWindow), sent;
        } else {
          window.InsertIntoWindow(p.payload, p.seqNum);
          window.current := window.lower;
          sent := [SelectiveReject(window.lower)];
          ret := Recover;
        }
      }
    }

    /** The in-order branch of `recv_file_data`. */
    method DrainRun(p: Packet)
      requires Valid()
      modifies this, window, window.ptr, window.occupied
      ensures Valid() && View(RecvFile) == Drain(old(View(RecvFile)), p)
    {
      window.InsertIntoWindow(p.payload, p.seqNum);
      ghost var w := window.View();
      ghost var e := RunEnd(w, w.lower);
      ghost var written := output + RunBytes(w, w.lower, e);
      var i := window.lower;
      while i < window.upper
        modifies `output
        invariant w.lower <= i <= w.upper && RunEnd(w, i) == e
        invariant output + RunBytes(w, i, e) == written
      {
        if !window.occupied[i % window.winSz] {
          break;
        }
        var packet := window.LoadFromWindow(i);
        OutputThenRun(output, w, i, e);
        output := output + packet;
        i := i + 1;
      }
      assert output + RunBytes(w, i, e) == output;
      window.MoveWindow(i);
    }

    method WaitClientPackets(poll: Poll) returns (ret: Mode, sent: seq<Packet>)
      requires Valid()
      modifies this, window, window.ptr, window.occupied
      ensures Valid()
      ensures (View(ret), sent) == RecoverStep(old(View(Recover)), poll)
    {
      ret, sent := Recover, [];
      if poll.Timeout? {
        return Exited(RecoverTimeout), sent;
      }
      if poll.Corrupt? {
        return;
      }
      var p := poll.packet;
      if p.seqNum >= window.lower && p.seqNum <= window.upper {
        FillGap(p);
        sent := [RequestReady(window.lower)];
        return RecvFile, sent;
      }
      sent := [RequestReady(window.current)];
    }

    /** The first loop of `wait_client_packets`. */
    method ScanForGap()
      requires Valid()
      modifies window`current
      ensures Valid()
      ensures
        var w := old(window.View());
        var gap := ScanGap(w, w.lower);
        window.View() == if gap >= 0 then w.(current := gap) else w
    {
      ghost var w := window.View();
      var i := window.lower;
      while i <= window.upper + 1
        modifies window`current
        invariant w.lower <= i <= w.upper + 2
        invariant window.current == w.current
        invariant ScanGap(w, w.lower) == ScanGap(w, i)
      {
        var index := i % window.winSz;
        if !window.occupied[index] {
          window.current := i;
          break;
        }
        i := i + 1;
      }
    }

    /** The second loop of `wait_client_packets`: everything before `current` goes into the file. */
    method WriteRun()
      requires Valid()
      modifies `output
      ensures output == old(output) + RunBytes(window.View(), window.lower, window.current)
    {
      ghost var v := window.View();
      ghost var written := output + RunBytes(v, v.lower, v.current);
      var i := window.lower;
      while i < window.current
        modifies `output
        invariant v.lower <= i
        invariant output + RunBytes(v, i, v.current) == written
      {
        var packet := window.LoadFromWindow(i);
        OutputThenRun(output, v, i, v.current);
        output := output + packet;
        i := i + 1;
      }
      assert output + RunBytes(v, i, v.current) == output;
    }

    /** The in-range branch of `wait_client_packets`. */
    method FillGap(p: Packet)
      requires Valid()
      modifies this, window, window.ptr, window.occupied
      ensures Valid() && View(Recover) == Fill(old(View(Recover)), p)
    {
      window.InsertIntoWindow(p.payload, p.seqNum);
      ScanForGap();
      WriteRun();
      window.MoveWindow(window.current);
    }

    method ClientTerminationWait(poll: Poll) returns (ret: Mode, sent: seq<Packet>)
      requires Valid()
      modifies this
      ensures Valid()
      ensures (View(ret), sent) == TerminationStep(old(View(Termination)), poll)
    {
      ret, sent := Termination, [EndConnection()];
      if !poll.Timeout? {
        if poll.Got? && poll.packet.flag == FLAG_END_CONNECTION {
          ret := Exited(ClientEnded);
        }
      } else {
        retryCount := retryCount + 1;
      }
    }

    /** The body of the loop in `forkedServer`. */
    method Turn(mode: Mode, poll: Poll) returns (ret: Mode, sent: seq<Packet>)
      requires Valid() && !mode.Exited?
      modifies this, window, window.ptr, window.occupied
      ensures Valid()
      ensures (View(ret), sent) == Step(old(View(mode)), poll)
    {
      if mode == RecvFile {
        ret, sent := RecvFileData(poll);
      } else if mode == Recover {
        ret, sent := WaitClientPackets(poll);
      } else {
        ret, sent := ClientTerminationWait(poll);
      }
    }
  }
}

/** How long each program of Program_3 keeps going when nothing arrives any more. */
module Silence {
  import opened Bytes
  import opened Packets
  import opened Windowing
  import C = UdpClient
  import S = UdpServer

  /** Reads of at most `size` bytes needed to consume `rest` bytes. */
  function Blocks(rest: nat, size: nat): nat
    requires size >= 1
  {
    (rest + size - 1) / size
  }

  lemma BlocksStep(rest: nat, size: nat)
    requires size >= 1 && rest >= 1
    ensures Blocks(rest, size) == Blocks(rest - Min(size, rest), size) + 1
    ensures Blocks(0, size) == 0
  {
    if rest >= size {
      var q := (rest - 1) / size;
      assert rest + size - 1 == size * (q + 1) + (rest - 1) % size;
      QuotientOf(rest + size - 1, size, q + 1, (rest - 1) % size);
    } else {
      QuotientOf(rest + size - 1, size, 1, rest - 1);
    }
    QuotientOf(size - 1, size, 0, size - 1);
  }

  lemma QuotientOf(x: nat, n: nat, q: nat, r: nat)
    requires n >= 1 && r < n && x == n * q + r
    ensures x / n == q
  {
    var d := x / n - q;
    assert r - x % n == n * d;
    MultipleOf(n, d);
  }

  /** Turns left in a state that counts silent seconds: it stops on the turn after the eleventh. */
  function RetriesLeft(retryCount: nat): nat {
    if retryCount > 10 then 1 else 12 - retryCount
  }

  /** Two turns for each chunk that still fits the window, and then the retries. */
  function ClientTurnsLeft(c: C.ClientState): nat
    requires c.Valid() && c.bufSize >= 1 && c.window.current <= c.window.upper
  {
    var sends := Min(c.window.upper - c.window.current, Blocks(|c.input| - c.pos, c.bufSize));
    match c.mode
    case Exited(_) => 0
    case AckData => RetriesLeft(c.retryCount)
    case FileData => 2 * sends + 1 + RetriesLeft(c.retryCount)
    case ServerData => 2 * sends + 2 + RetriesLeft(c.retryCount)
  }

  function SilentClient(c: C.ClientState, turns: nat): (d: C.ClientState)
    requires c.Valid()
    ensures d.Valid() && d.bufSize == c.bufSize
    decreases turns
  {
    if turns == 0 || c.mode.Exited? then c else SilentClient(C.Step(c, Timeout).0, turns - 1)
  }

  /** Every silent turn uses up exactly one of the turns left. */
  lemma SilentTurnCounts(c: C.ClientState)
    requires c.Valid() && c.bufSize >= 1 && c.window.current <= c.window.upper && !c.mode.Exited?
    ensures var d := C.Step(c, Timeout).0;
            d.window.current <= d.window.upper && ClientTurnsLeft(d) == ClientTurnsLeft(c) - 1
  {
    if c.mode == C.FileData {
      if c.pos < |c.input| {
        BlocksStep(|c.input| - c.pos, c.bufSize);
      } else {
        BlocksStep(1, c.bufSize);
      }
    }
  }

  /** In silence the client stops, unsuccessfully, after exactly the turns it has left. */
  lemma {:induction false} SilentClientStops(c: C.ClientState, turns: nat)
    requires c.Valid() && c.bufSize >= 1 && c.window.current <= c.window.upper
    ensures SilentClient(c, turns).mode.Exited? <==> turns >= ClientTurnsLeft(c)
    ensures turns >= ClientTurnsLeft(c) && !c.mode.Exited? ==> SilentClient(c, turns).mode == C.Exited(false)
    decreases turns
  {
    if turns > 0 && !c.mode.Exited? {
      SilentTurnCounts(c);
      var d := C.Step(c, Timeout).0;
      SilentClientStops(d, turns - 1);
    }
  }

  /** From the start: the chunks of one window, two turns each, one turn that finds nothing more to send,
      and twelve turns of waiting. */
  lemma SilentFromTheStart(input: seq<byte>, bufSize: nat, w: Win, turns: nat)
    requires w.Valid() && w == Reset(w.size, w.slots, w.occupied) && bufSize >= 1
    ensures SilentClient(C.Start(input, bufSize, w), turns).mode.Exited? <==>
            turns >= 2 * Min(w.size, Blocks(|input|, bufSize)) + 13
    ensures SilentServer(S.Start(w), turns).mode.Exited? <==> turns >= 12
  {
    SilentClientStops(C.Start(input, bufSize, w), turns);
    SilentServerStops(S.Start(w), turns);
  }

  function SilentServer(s: S.ServerState, turns: nat): (t: S.ServerState)
    requires s.window.Valid()
    decreases turns
  {
    if turns == 0 || s.mode.Exited? then s else SilentServer(S.Step(s, Timeout).0, turns - 1)
  }

  /** At most twelve turns of RECVFILE, or one of RECOVER. */
  function ServerTurnsLeft(s: S.ServerState): nat
    requires s.mode != S.Termination
  {
    match s.mode
    case Exited(_) => 0
    case RecvFile => RetriesLeft(s.retryCount)
    case Recover => 1
  }

  /** In silence the server stops after exactly the turns it has left, but never once it is waiting
      for the client's end of connection: that state counts retries and does not test them. */
  lemma {:induction false} SilentServerStops(s: S.ServerState, turns: nat)
    requires s.window.Valid()
    ensures SilentServer(s, turns).mode.Exited? <==> s.mode != S.Termination && turns >= ServerTurnsLeft(s)
    ensures SilentServer(s, turns).output == s.output
    decreases turns
  {
    if turns > 0 && !s.mode.Exited? {
      SilentServerStops(S.Step(s, Timeout).0, turns - 1);
    }
  }
}

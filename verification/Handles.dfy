/** The server's table of client handles in Program_2: `addHandle` (helper.c) and what
    `recvFromClient` (server.c) does when a connection closes. */
module Handles {
  import opened Bytes

  const TABLE := 100
  const HANDLE := 100

  /** One `struct ClientInfo`. The buffer keeps old bytes beyond `handleLength`. */
  datatype Entry = Entry(isUsed: bool, handle: seq<byte>, handleLength: nat, socketNumber: int) {
    predicate Valid() {
      |handle| == HANDLE && handleLength <= HANDLE
    }

    function Name(): seq<byte>
      requires Valid()
    {
      handle[..handleLength]
    }
  }

  ghost predicate ValidTable(t: seq<Entry>) {
    |t| == TABLE && forall i :: 0 <= i < TABLE ==> t[i].Valid()
  }

  /** `initializeHelper`. */
  function Empty(): seq<Entry> {
    seq(TABLE, i => Entry(false, seq(HANDLE, k => 0), 0, 0))
  }

  /** `memcpy(entry.handle, name, |name|)`. */
  function Overwrite(handle: seq<byte>, name: seq<byte>): (r: seq<byte>)
    requires |handle| == HANDLE && |name| <= HANDLE
    ensures |r| == HANDLE && name <= r && forall k :: |name| <= k < HANDLE ==> r[k] == handle[k]
  {
    name + handle[|name|..]
  }

  ghost predicate InUse(t: seq<Entry>, name: seq<byte>)
    requires ValidTable(t)
  {
    exists i :: 0 <= i < TABLE && t[i].isUsed && t[i].Name() == name
  }

  ghost predicate Full(t: seq<Entry>)
    requires |t| == TABLE
  {
    forall i :: 0 <= i < TABLE ==> t[i].isUsed
  }

  /** The first entry not in use, or `TABLE`. */
  function FirstFree(t: seq<Entry>, i: nat): (k: nat)
    requires |t| == TABLE && i <= TABLE
    ensures i <= k <= TABLE && (k < TABLE ==> !t[k].isUsed)
    ensures forall j :: i <= j < k ==> t[j].isUsed
    decreases TABLE - i
  {
    if i < TABLE && t[i].isUsed then FirstFree(t, i + 1) else i
  }

  lemma FirstFreeIsFound(t: seq<Entry>, i: nat)
    requires |t| == TABLE && i < TABLE && !t[i].isUsed && forall j :: 0 <= j < i ==> t[j].isUsed
    ensures FirstFree(t, 0) == i
  {
  }

  /** The table after a registration; unchanged when it is refused. */
  ghost function Added(t: seq<Entry>, name: seq<byte>, socket: int): seq<Entry>
    requires ValidTable(t) && |name| <= HANDLE
  {
    var k := FirstFree(t, 0);
    if InUse(t, name) || k == TABLE then t
    else t[k := Entry(true, Overwrite(t[k].handle, name), |name|, socket)]
  }

  function Dropped(t: seq<Entry>, socket: int): seq<Entry> {
    seq(|t|, i requires 0 <= i < |t| => if t[i].socketNumber == socket then t[i].(isUsed := false) else t[i])
  }

  // ---------------------------------------------------------------- every run of the server

  datatype Event = Register(name: seq<byte>, socket: int) | Close(socket: int)

  ghost function Handle(t: seq<Entry>, e: Event): (r: seq<Entry>)
    requires ValidTable(t) && (e.Register? ==> |e.name| <= HANDLE)
    ensures ValidTable(r)
  {
    match e
    case Register(name, socket) => Added(t, name, socket)
    case Close(socket) => Dropped(t, socket)
  }

  ghost function After(t: seq<Entry>, events: seq<Event>): (r: seq<Entry>)
    requires ValidTable(t)
    requires forall e :: e in events && e.Register? ==> |e.name| <= HANDLE
    ensures ValidTable(r)
    decreases |events|
  {
    if events == [] then t else After(Handle(t, events[0]), events[1..])
  }

  /** No two entries in use hold the same handle. */
  ghost predicate Unique(t: seq<Entry>)
    requires ValidTable(t)
  {
    forall i, j :: 0 <= i < j < TABLE && t[i].isUsed && t[j].isUsed ==> t[i].Name() != t[j].Name()
  }

  /** The registered handles with their sockets. */
  ghost function Registered(t: seq<Entry>): set<(seq<byte>, int)>
    requires ValidTable(t)
  {
    set i | 0 <= i < TABLE && t[i].isUsed :: (t[i].Name(), t[i].socketNumber)
  }

  /** A registration adds exactly its handle, in the first free entry, and is refused exactly when the
      handle is in use or the table is full. */
  lemma AddedRegisters(t: seq<Entry>, name: seq<byte>, socket: int)
    requires ValidTable(t) && |name| <= HANDLE
    ensures ValidTable(Added(t, name, socket))
    ensures InUse(t, name) || Full(t) ==> Added(t, name, socket) == t
    ensures !InUse(t, name) && !Full(t) ==>
              Registered(Added(t, name, socket)) == Registered(t) + {(name, socket)}
    ensures var r := Added(t, name, socket);
            forall i :: 0 <= i < TABLE && r[i] != t[i] ==>
              && !t[i].isUsed && (forall j :: 0 <= j < i ==> t[j].isUsed)
              && r[i].isUsed && r[i].Name() == name && r[i].socketNumber == socket
              && r[i].handle[|name|..] == t[i].handle[|name|..]
    ensures Unique(t) ==> Unique(Added(t, name, socket))
  {
    var k := FirstFree(t, 0);
    var r := Added(t, name, socket);
    if !InUse(t, name) && k < TABLE {
      assert r[k].Name() == name;
      forall p | p in Registered(t) + {(name, socket)}
        ensures p in Registered(r)
      {
        if p == (name, socket) {
          assert r[k].isUsed;
        } else {
          var i :| 0 <= i < TABLE && t[i].isUsed && p == (t[i].Name(), t[i].socketNumber);
          assert r[i] == t[i];
        }
      }
    }
  }

  /** Closing a connection removes exactly the handles of its socket, and clears nothing but marks. */
  lemma DroppedUnregisters(t: seq<Entry>, socket: int)
    requires ValidTable(t)
    ensures forall i :: 0 <= i < TABLE ==> Dropped(t, socket)[i].(isUsed := t[i].isUsed) == t[i]
    ensures Registered(Dropped(t, socket)) == set p | p in Registered(t) && p.1 != socket
    ensures Unique(t) ==> Unique(Dropped(t, socket))
  {
    var r := Dropped(t, socket);
    forall p | p in Registered(t) && p.1 != socket
      ensures p in Registered(r)
    {
      var i :| 0 <= i < TABLE && t[i].isUsed && p == (t[i].Name(), t[i].socketNumber);
      assert r[i] == t[i];
    }
  }

  lemma {:induction false} RunKeepsUnique(t: seq<Entry>, events: seq<Event>)
    requires ValidTable(t) && Unique(t)
    requires forall e :: e in events && e.Register? ==> |e.name| <= HANDLE
    ensures Unique(After(t, events))
    decreases |events|
  {
    if events != [] {
      match events[0] {
        case Register(name, socket) => AddedRegisters(t, name, socket);
        case Close(socket) => DroppedUnregisters(t, socket);
      }
      RunKeepsUnique(Handle(t, events[0]), events[1..]);
    }
  }

  /** Over every run of registrations and disconnects from the initial table. */
  lemma HandlesStayUnique(events: seq<Event>)
    requires forall e :: e in events && e.Register? ==> |e.name| <= HANDLE
    ensures Unique(After(Empty(), events))
  {
    RunKeepsUnique(Empty(), events);
  }

  // ---------------------------------------------------------------- the table as a directory

  ghost predicate Taken(directory: set<(seq<byte>, int)>, name: seq<byte>) {
    exists p :: p in directory && p.0 == name
  }

  /** What an event means, without a table: at most 100 pairs of a handle and a socket. */
  ghost function Directory(directory: set<(seq<byte>, int)>, e: Event): set<(seq<byte>, int)> {
    match e
    case Register(name, socket) =>
      if Taken(directory, name) || |directory| >= 100 then directory else directory + {(name, socket)}
    case Close(socket) => set p | p in directory && p.1 != socket
  }

  ghost function DirectoryAfter(directory: set<(seq<byte>, int)>, events: seq<Event>): set<(seq<byte>, int)>
    decreases |events|
  {
    if events == [] then directory else DirectoryAfter(Directory(directory, events[0]), events[1..])
  }

  /** The pairs of the first `k` entries. */
  ghost function RegisteredBelow(t: seq<Entry>, k: nat): set<(seq<byte>, int)>
    requires ValidTable(t) && k <= TABLE
  {
    set i | 0 <= i < k && t[i].isUsed :: (t[i].Name(), t[i].socketNumber)
  }

  lemma OneMorePair(t: seq<Entry>, k: nat)
    requires ValidTable(t) && Unique(t) && k < TABLE && t[k].isUsed
    ensures |RegisteredBelow(t, k + 1)| == |RegisteredBelow(t, k)| + 1
  {
    var r, last := RegisteredBelow(t, k), (t[k].Name(), t[k].socketNumber);
    assert forall i :: 0 <= i < k && t[i].isUsed ==> t[i].Name() != t[k].Name();
    assert last !in r;
    assert RegisteredBelow(t, k + 1) == r + {last};
  }

  lemma {:induction false} CountBelow(t: seq<Entry>, k: nat)
    requires ValidTable(t) && Unique(t) && k <= TABLE
    ensures |RegisteredBelow(t, k)| <= k
    ensures |RegisteredBelow(t, k)| == k <==> forall i :: 0 <= i < k ==> t[i].isUsed
  {
    if k == 0 {
      assert RegisteredBelow(t, 0) == {};
    } else {
      CountBelow(t, k - 1);
      if t[k - 1].isUsed {
        OneMorePair(t, k - 1);
      } else {
        assert RegisteredBelow(t, k) == RegisteredBelow(t, k - 1);
      }
    }
  }

  /** Full is a hundred pairs, and in use is taken. */
  lemma DirectoryOf(t: seq<Entry>, name: seq<byte>)
    requires ValidTable(t) && Unique(t)
    ensures Full(t) <==> |Registered(t)| >= TABLE
    ensures InUse(t, name) <==> Taken(Registered(t), name)
  {
    CountBelow(t, TABLE);
    assert RegisteredBelow(t, TABLE) == Registered(t);
    if i :| 0 <= i < TABLE && t[i].isUsed && t[i].Name() == name {
      assert (t[i].Name(), t[i].socketNumber) in Registered(t);
    }
  }

  lemma {:induction false} RunIsDirectory(t: seq<Entry>, events: seq<Event>)
    requires ValidTable(t) && Unique(t)
    requires forall e :: e in events && e.Register? ==> |e.name| <= HANDLE
    ensures Registered(After(t, events)) == DirectoryAfter(Registered(t), events)
    decreases |events|
  {
    if events != [] {
      match events[0] {
        case Register(name, socket) =>
          DirectoryOf(t, name);
          AddedRegisters(t, name, socket);
        case Close(socket) =>
          DroppedUnregisters(t, socket);
      }
      RunIsDirectory(Handle(t, events[0]), events[1..]);
    }
  }

  /** After every run of registrations and disconnects from the initial table, the registered pairs are
      those of a directory that starts empty and takes up to 100 different handles. */
  lemma TableIsDirectory(events: seq<Event>)
    requires forall e :: e in events && e.Register? ==> |e.name| <= HANDLE
    ensures Registered(After(Empty(), events)) == DirectoryAfter({}, events)
  {
    assert Registered(Empty()) == {};
    RunIsDirectory(Empty(), events);
  }

  // ---------------------------------------------------------------- the table in place

  class HandleTable {
    const entries: array<Entry>

    ghost predicate Valid()
      reads this, entries
    {
      ValidTable(entries[..])
    }

    constructor ()
      ensures Valid() && fresh(entries) && entries[..] == Empty()
    {
      entries := new Entry[TABLE](i => Entry(false, seq(HANDLE, k => 0), 0, 0));
    }

    /** `addHandle`: 0 when registered, -1 when refused. */
    method AddHandle(clientHandle: seq<byte>, socket: int) returns (ret: int)
      requires Valid() && |clientHandle| <= HANDLE
      modifies entries
      ensures Valid()
      ensures entries[..] == Added(old(entries[..]), clientHandle, socket)
      ensures ret == if InUse(old(entries[..]), clientHandle) || Full(old(entries[..])) then -1 else 0
    {
      ghost var t := entries[..];
      ret := -1;
      var i := 0;
      while i < TABLE
        invariant 0 <= i <= TABLE && entries[..] == t
        invariant forall j :: 0 <= j < i && t[j].isUsed ==> t[j].Name() != clientHandle
      {
        assert t[i] == entries[i] && t[i].Valid();
        if entries[i].isUsed && |clientHandle| == entries[i].handleLength {
          if clientHandle == entries[i].handle[..|clientHandle|] {
            assert t[i].Name() == clientHandle;
            return;
          }
        }
        i := i + 1;
      }
      assert !InUse(t, clientHandle);
      i := 0;
      while i < TABLE
        invariant 0 <= i <= TABLE && entries[..] == t
        invariant forall j :: 0 <= j < i ==> t[j].isUsed
      {
        assert t[i] == entries[i] && t[i].Valid();
        if !entries[i].isUsed {
          FirstFreeIsFound(t, i);
          entries[i] := Entry(true, Overwrite(entries[i].handle, clientHandle), |clientHandle|, socket);
          assert entries[..] == t[i := entries[i]];
          return 0;
        }
        i := i + 1;
      }
    }

    /** The loop of `recvFromClient` for a closed connection. */
    method CloseConnection(socket: int)
      requires Valid()
      modifies entries
      ensures Valid() && entries[..] == Dropped(old(entries[..]), socket)
    {
      ghost var t := entries[..];
      var i := 0;
      while i < TABLE
        invariant 0 <= i <= TABLE
        invariant forall j :: i <= j < TABLE ==> entries[j] == t[j]
        invariant forall j :: 0 <= j < i ==> entries[j] == Dropped(t, socket)[j]
      {
        if entries[i].socketNumber == socket {
          entries[i] := entries[i].(isUsed := false);
        }
        i := i + 1;
      }
      assert entries[..] == Dropped(t, socket);
    }
  }
}

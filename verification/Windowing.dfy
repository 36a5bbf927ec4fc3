/** The ring-buffer window shared by sender and receiver (Program_3/windowing.c).

    `Win` is the value of a window; the functions on it say what each C function does to that
    value; `CircularQWindow` performs them in place on arrays. The lemmas show that the ring is
    a finite map from the sequence numbers of `[lower, upper)` to byte strings. */
module Windowing {
  import opened Bytes

  /** A filled ring slot: `data` is the first `buf_size` bytes of the C buffer. */
  datatype Slot = Slot(seqNum: nat, data: seq<byte>)

  datatype Win = Win(lower: nat, current: nat, upper: nat, size: nat, slots: seq<Slot>, occupied: seq<bool>) {

    predicate Valid() {
      1 <= size == |slots| == |occupied| && upper == lower + size
    }

    /** Is the slot that sequence number `i` maps to marked occupied? */
    predicate Holds(i: nat)
      requires Valid()
    {
      occupied[i % size]
    }
  }

  function Reset(size: nat, slots: seq<Slot>, occupied: seq<bool>): Win {
    Win(1, 1, size + 1, size, slots, occupied)
  }

  function Insert(w: Win, data: seq<byte>, s: nat): Win
    requires w.Valid()
  {
    w.(slots := w.slots[s % w.size := Slot(s, data)], occupied := w.occupied[s % w.size := true])
  }

  function Load(w: Win, s: nat): seq<byte>
    requires w.Valid()
  {
    w.slots[s % w.size].data
  }

  function Remove(w: Win, s: nat): Win
    requires w.Valid()
  {
    w.(occupied := w.occupied[s % w.size := false])
  }

  function ClearRange(occupied: seq<bool>, from: nat, upTo: nat): (r: seq<bool>)
    requires |occupied| >= 1
    ensures |r| == |occupied|
    decreases upTo - from
  {
    if from >= upTo then occupied else ClearRange(occupied[from % |occupied| := false], from + 1, upTo)
  }

  function Move(w: Win, newLower: nat): Win
    requires w.Valid()
  {
    Win(newLower, if newLower > w.current then newLower else w.current, w.upper + newLower - w.lower, w.size,
        w.slots, ClearRange(w.occupied, w.lower, newLower))
  }

  /** The first number at or after `i`, below `upper`, whose slot is free; `upper` if there is none. */
  function RunEnd(w: Win, i: nat): (e: nat)
    requires w.Valid() && i <= w.upper
    ensures i <= e <= w.upper
    ensures forall k :: i <= k < e ==> w.Holds(k)
    ensures e < w.upper ==> !w.Holds(e)
    decreases w.upper - i
  {
    if i < w.upper && w.Holds(i) then RunEnd(w, i + 1) else i
  }

  /** What loading `i`, `i + 1`, ..., `j - 1` and writing each in turn puts in the file. */
  function RunBytes(w: Win, i: nat, j: nat): seq<byte>
    requires w.Valid()
    decreases j - i
  {
    if i < j then Load(w, i) + RunBytes(w, i + 1, j) else []
  }

  // ---------------------------------------------------------------- the ring as a finite map

  /** The abstract content: which numbers of the live range are buffered, and with what bytes. */
  ghost function Buffered(w: Win): map<nat, seq<byte>>
    requires w.Valid()
  {
    map i: nat | w.lower <= i < w.upper && w.Holds(i) :: Load(w, i)
  }

  lemma MultipleOf(n: nat, d: int)
    requires n >= 1
    ensures d >= 1 ==> n * d >= n
    ensures d <= -1 ==> n * d + n <= 0
  {
  }

  /** `seq % win_sz` never confuses two numbers less than one window apart. */
  lemma ModInjective(i: nat, j: nat, n: nat)
    requires n >= 1 && i <= j < i + n
    ensures i % n == j % n <==> i == j
  {
    if i % n == j % n {
      var d := j / n - i / n;
      assert j - i == n * d;
      MultipleOf(n, d);
    }
  }

  /** Numbers a whole window apart share a slot. */
  lemma ModShift(i: nat, n: nat)
    requires n >= 1
    ensures (i + n) % n == i % n
  {
    var q := i / n;
    assert i + n == n * (q + 1) + i % n;
    QuotientRemainder(i + n, n, q + 1, i % n);
  }

  lemma QuotientRemainder(x: nat, n: nat, q: nat, r: nat)
    requires n >= 1 && r < n && x == n * q + r
    ensures x % n == r
  {
    var d := x / n - q;
    assert r - x % n == n * d;
    MultipleOf(n, d);
  }

  /** Inserting under `s` is a map update at the live number `a` that shares its slot: `a == s` for
      every live `s`, but `a == lower` for `s == upper`, which `udpServer.c` lets through. */
  lemma InsertIsUpdate(w: Win, data: seq<byte>, s: nat, a: nat)
    requires w.Valid() && w.lower <= a < w.upper && s % w.size == a % w.size
    ensures Buffered(Insert(w, data, s)) == Buffered(w)[a := data]
  {
    forall i: nat | w.lower <= i < w.upper
      ensures i % w.size == s % w.size <==> i == a
    {
      if i <= a { ModInjective(i, a, w.size); } else { ModInjective(a, i, w.size); }
    }
  }

  lemma UpperAliasesLower(w: Win, data: seq<byte>)
    requires w.Valid()
    ensures Buffered(Insert(w, data, w.upper)) == Buffered(w)[w.lower := data]
  {
    ModShift(w.lower, w.size);
    InsertIsUpdate(w, data, w.upper, w.lower);
  }

  lemma RemoveIsDelete(w: Win, s: nat)
    requires w.Valid() && w.lower <= s < w.upper
    ensures Buffered(Remove(w, s)) == Buffered(w) - {s}
  {
    forall i: nat | w.lower <= i < w.upper
      ensures i % w.size == s % w.size <==> i == s
    {
      if i <= s { ModInjective(i, s, w.size); } else { ModInjective(s, i, w.size); }
    }
  }

  /** Clearing `[from, upTo)` frees exactly the slots of its numbers, however long it is. */
  lemma {:induction false} ClearRangeAt(occupied: seq<bool>, from: nat, upTo: nat, i: nat)
    requires |occupied| >= 1 && from <= i < from + |occupied|
    ensures ClearRange(occupied, from, upTo)[i % |occupied|] == (occupied[i % |occupied|] && upTo <= i)
    decreases upTo - from
  {
    var n := |occupied|;
    if from < upTo {
      var rest := occupied[from % n := false];
      ModInjective(from, i, n);
      if i == from {
        ClearedStays(rest, from + 1, upTo, i % n);
      } else {
        ClearRangeAt(rest, from + 1, upTo, i);
      }
    }
  }

  lemma {:induction false} ClearedStays(occupied: seq<bool>, from: nat, upTo: nat, k: nat)
    requires k < |occupied| && !occupied[k]
    ensures !ClearRange(occupied, from, upTo)[k]
    decreases upTo - from
  {
    if from < upTo {
      ClearedStays(occupied[from % |occupied| := false], from + 1, upTo, k);
    }
  }

  /** What is occupied after a move, over the new live range. */
  lemma MoveHolds(w: Win, n: nat, i: nat)
    requires w.Valid() && w.lower <= n <= i < n + w.size
    ensures Move(w, n).Valid()
    ensures Move(w, n).Holds(i) <==> i < w.upper && w.Holds(i)
  {
    var k := Representative(i, w.lower, w.size);
    ClearRangeAt(w.occupied, w.lower, n, k);
  }

  /** The number of the window at `lower` that shares the slot of `i`. */
  lemma {:induction false} Representative(i: nat, lower: nat, size: nat) returns (k: nat)
    requires size >= 1 && lower <= i
    ensures lower <= k < lower + size && k % size == i % size
    ensures if i < lower + size then k == i else k <= i - size
  {
    if i < lower + size {
      k := i;
    } else {
      k := Representative(i - size, lower, size);
      ModShift(i - size, size);
    }
  }

  /** Moving the window forward, however far, drops the numbers below the new edge and nothing else. */
  lemma MoveIsRestriction(w: Win, n: nat)
    requires w.Valid() && w.lower <= n
    ensures Move(w, n).Valid()
    ensures Buffered(Move(w, n)) == map i: nat | i in Buffered(w) && n <= i :: Buffered(w)[i]
  {
    forall i: nat | n <= i < n + w.size
      ensures Move(w, n).Holds(i) <==> i < w.upper && w.Holds(i)
    {
      MoveHolds(w, n, i);
    }
  }

  /** Every buffered number is the one written in its slot. */
  ghost predicate Labelled(w: Win)
    requires w.Valid()
  {
    forall i :: w.lower <= i < w.upper && w.Holds(i) ==> w.slots[i % w.size].seqNum == i
  }

  /** Inserting a live number and moving forward keep the labels right. */
  lemma LabelsStayRight(w: Win, data: seq<byte>, s: nat, n: nat)
    requires w.Valid() && Labelled(w) && w.lower <= s < w.upper && w.lower <= n
    ensures Labelled(Insert(w, data, s)) && Move(w, n).Valid() && Labelled(Move(w, n))
  {
    var v := Insert(w, data, s);
    forall i | w.lower <= i < w.upper && v.Holds(i)
      ensures v.slots[i % w.size].seqNum == i
    {
      if i <= s { ModInjective(i, s, w.size); } else { ModInjective(s, i, w.size); }
      assert i != s ==> w.Holds(i);
    }
    forall i | n <= i < n + w.size && Move(w, n).Holds(i)
      ensures w.slots[i % w.size].seqNum == i
    {
      MoveHolds(w, n, i);
    }
  }

  // ---------------------------------------------------------------- the window in place

  class CircularQWindow {
    var lower: nat
    var current: nat
    var upper: nat
    const winSz: nat
    const ptr: array<Slot>
    const occupied: array<bool>

    ghost predicate Valid()
      reads this, ptr, occupied
    {
      1 <= winSz == ptr.Length == occupied.Length && upper == lower + winSz
    }

    ghost function View(): Win
      reads this, ptr, occupied
    {
      Win(lower, current, upper, winSz, ptr[..], occupied[..])
    }

    /** `windowreset`. What `malloc` returns is passed in: the C code clears neither block. */
    constructor (windowSize: nat, ptr: array<Slot>, occupied: array<bool>)
      requires 1 <= windowSize == ptr.Length == occupied.Length
      ensures Valid() && this.ptr == ptr && this.occupied == occupied
      ensures View() == Reset(windowSize, ptr[..], occupied[..])
    {
      lower, current, upper, winSz := 1, 1, windowSize + 1, windowSize;
      this.ptr, this.occupied := ptr, occupied;
    }

    method InsertIntoWindow(packet: seq<byte>, seqNum: nat)
      requires Valid()
      modifies ptr, occupied
      ensures Valid() && View() == Insert(old(View()), packet, seqNum)
    {
      var idx := seqNum % winSz;
      ptr[idx] := Slot(seqNum, packet);
      occupied[idx] := true;
    }

    method LoadFromWindow(seqNum: nat) returns (packet: seq<byte>)
      requires Valid()
      ensures packet == Load(View(), seqNum)
    {
      var idx := seqNum % winSz;
      packet := ptr[idx].data;
    }

    method RemoveFromWindow(seqNum: nat)
      requires Valid()
      modifies occupied
      ensures Valid() && View() == Remove(old(View()), seqNum)
    {
      occupied[seqNum % winSz] := false;
    }

    method MoveWindow(newLower: nat)
      requires Valid()
      modifies this, occupied
      ensures Valid() && View() == Move(old(View()), newLower)
    {
      var itr := lower;
      ghost var cleared := ClearRange(occupied[..], lower, newLower);
      while itr < newLower
        modifies occupied
        invariant ClearRange(occupied[..], itr, newLower) == cleared
      {
        var idx := itr % winSz;
        ghost var before := occupied[..];
        occupied[idx] := false;
        assert occupied[..] == before[idx := false];
        itr := itr + 1;
      }
      assert occupied[..] == cleared;
      upper := upper + newLower - lower;
      lower := newLower;
      if lower > current {
        current := lower;
      }
    }
  }
}

/** The multicast packet of Program_2: how the client builds it from a typed command (cclient.c) and
    how the server takes it apart (case 6 of `checkFlag` in helper.c). */
module Multicast {
  import opened Bytes

  const FLAG_MULTICAST: byte := 6
  const SPACE: byte := 32
  const MAXBUF := 1024
  const SENDBUF := 2048

  datatype Option<T> = None | Some(value: T)

  // ---------------------------------------------------------------- the packet

  function HandleBytes(handles: seq<seq<byte>>): seq<byte>
    requires forall h :: h in handles ==> |h| <= 255
  {
    if handles == [] then [] else [|handles[0]|] + handles[0] + HandleBytes(handles[1..])
  }

  predicate Fields(sender: seq<byte>, handles: seq<seq<byte>>) {
    |sender| <= 255 && |handles| <= 255 && forall h :: h in handles ==> |h| <= 255
  }

  function PacketOf(sender: seq<byte>, handles: seq<seq<byte>>, message: seq<byte>): seq<byte>
    requires Fields(sender, handles)
  {
    [FLAG_MULTICAST, |sender|] + sender + [|handles|] + HandleBytes(handles) + message
  }

  // ---------------------------------------------------------------- the server

  /** `count` length-prefixed handles lie in the buffer from `at` on. */
  predicate Fits(data: seq<byte>, at: nat, count: nat)
    decreases count
  {
    if count == 0 then at <= |data|
    else at < |data| && After(data, at) <= |data| && Fits(data, After(data, at), count - 1)
  }

  /** The offset after the length byte at `at` and the handle behind it. */
  function After(data: seq<byte>, at: nat): nat
    requires at < |data|
  {
    at + 1 + data[at]
  }

  /** Where the offset-only pass ends. */
  function SkipHandles(data: seq<byte>, at: nat, count: nat): (end: nat)
    requires Fits(data, at, count)
    ensures at <= end <= |data|
    decreases count
  {
    if count == 0 then at else SkipHandles(data, After(data, at), count - 1)
  }

  function HandlesAt(data: seq<byte>, at: nat, count: nat): (handles: seq<seq<byte>>)
    requires Fits(data, at, count)
    ensures |handles| == count
    decreases count
  {
    if count == 0 then [] else [data[at + 1..After(data, at)]] + HandlesAt(data, After(data, at), count - 1)
  }

  /** One handle at a time. */
  lemma FirstHandle(data: seq<byte>, at: nat, count: nat)
    requires count > 0 && at < |data| && After(data, at) <= |data| && Fits(data, After(data, at), count - 1)
    ensures Fits(data, at, count)
    ensures SkipHandles(data, at, count) == SkipHandles(data, After(data, at), count - 1)
    ensures HandlesAt(data, at, count)
         == [data[at + 1..After(data, at)]] + HandlesAt(data, After(data, at), count - 1)
  {
  }

  function SenderLength(data: seq<byte>): nat
    requires |data| >= 3
  {
    data[1]
  }

  function Count(data: seq<byte>): nat
    requires |data| >= 3 && 3 + SenderLength(data) <= |data|
  {
    data[2 + SenderLength(data)]
  }

  predicate WellFormed(data: seq<byte>) {
    |data| >= 3 && 3 + SenderLength(data) <= |data| && Fits(data, 3 + SenderLength(data), Count(data))
  }

  /** Both passes over the bytes of a received packet, which they only read; `destinations` are the
      handles looked up, in order. */
  method ParseMulticast(data: seq<byte>)
    returns (sender: seq<byte>, destinations: seq<seq<byte>>, message: seq<byte>, firstEnd: nat, secondEnd: nat)
    requires WellFormed(data)
    ensures
      var start := 3 + SenderLength(data);
      && sender == data[2..2 + SenderLength(data)]
      && destinations == HandlesAt(data, start, Count(data))
      && firstEnd == secondEnd == SkipHandles(data, start, Count(data))
      && message == data[firstEnd..]
  {
    var sendingHandleLen: nat := data[1];
    sender := data[2..2 + sendingHandleLen];
    var count: nat := data[2 + sendingHandleLen];
    var copyIndex: nat := 2 + sendingHandleLen + 1;
    firstEnd := FindMessage(data, copyIndex, count);
    message := data[firstEnd..];
    destinations, secondEnd := Destinations(data, copyIndex, count);
  }

  /** The first pass, which only adds up lengths. */
  method FindMessage(data: seq<byte>, start: nat, count: nat) returns (end: nat)
    requires Fits(data, start, count)
    ensures end == SkipHandles(data, start, count)
  {
    end := start;
    var i: nat := 0;
    while i < count
      invariant i <= count && Fits(data, end, count - i)
      invariant SkipHandles(data, end, count - i) == SkipHandles(data, start, count)
    {
      var tl: nat := data[end];
      end := end + tl + 1;
      i := i + 1;
    }
  }

  /** The second pass, which takes each handle out. */
  method Destinations(data: seq<byte>, start: nat, count: nat) returns (destinations: seq<seq<byte>>, end: nat)
    requires Fits(data, start, count)
    ensures destinations == HandlesAt(data, start, count)
    ensures end == SkipHandles(data, start, count)
  {
    end, destinations := start, [];
    var i: nat := 0;
    ghost var all, last := HandlesAt(data, start, count), SkipHandles(data, start, count);
    while i < count
      invariant i <= count && Fits(data, end, count - i)
      invariant SkipHandles(data, end, count - i) == last
      invariant destinations + HandlesAt(data, end, count - i) == all
    {
      FirstHandle(data, end, count - i);
      ghost var next, later := After(data, end), HandlesAt(data, After(data, end), count - i - 1);
      var destHandleLen: nat := data[end];
      end := end + 1;
      var name := data[end..end + destHandleLen];
      assert destinations + ([name] + later) == (destinations + [name]) + later;
      destinations := destinations + [name];
      end := end + destHandleLen;
      i := i + 1;
      assert end == next && HandlesAt(data, end, count - i) == later;
    }
  }

  lemma {:induction false} HandlesParseBack(data: seq<byte>, at: nat, handles: seq<seq<byte>>, message: seq<byte>)
    requires forall h :: h in handles ==> |h| <= 255
    requires at <= |data| && data[at..] == HandleBytes(handles) + message
    ensures Fits(data, at, |handles|) && HandlesAt(data, at, |handles|) == handles
    ensures SkipHandles(data, at, |handles|) == |data| - |message|
    decreases |handles|
  {
    if handles != [] {
      var h, rest := handles[0], handles[1..];
      var tail := HandleBytes(rest) + message;
      assert handles == [h] + rest;
      FirstOfHandles(handles, message);
      PrefixParses(data, at, h, tail);
      var next := After(data, at);
      HandlesParseBack(data, next, rest, message);
      ParseStep(data, at, h, rest, |data| - |message|);
    }
  }

  lemma FirstOfHandles(handles: seq<seq<byte>>, message: seq<byte>)
    requires handles != [] && forall h :: h in handles ==> |h| <= 255
    ensures HandleBytes(handles) + message
         == [|handles[0]|] + handles[0] + (HandleBytes(handles[1..]) + message)
  {
    assert handles[0] in handles;
  }

  lemma ParseStep(data: seq<byte>, at: nat, h: seq<byte>, rest: seq<seq<byte>>, end: nat)
    requires at < |data| && After(data, at) <= |data| && data[at + 1..After(data, at)] == h
    requires Fits(data, After(data, at), |rest|) && HandlesAt(data, After(data, at), |rest|) == rest
    requires SkipHandles(data, After(data, at), |rest|) == end
    ensures Fits(data, at, |rest| + 1) && HandlesAt(data, at, |rest| + 1) == [h] + rest
    ensures SkipHandles(data, at, |rest| + 1) == end
  {
  }

  lemma PrefixParses(data: seq<byte>, at: nat, h: seq<byte>, tail: seq<byte>)
    requires |h| <= 255 && at <= |data| && data[at..] == [|h|] + h + tail
    ensures at < |data| && After(data, at) == at + 1 + |h| <= |data|
    ensures data[at + 1..After(data, at)] == h && data[After(data, at)..] == tail
  {
  }

  /** Taking apart what was put together: the sender, the handles in order and the message. */
  lemma PacketParsesBack(sender: seq<byte>, handles: seq<seq<byte>>, message: seq<byte>)
    requires Fields(sender, handles)
    ensures
      var d := PacketOf(sender, handles, message);
      && WellFormed(d)
      && d[2..2 + SenderLength(d)] == sender
      && Count(d) == |handles|
      && HandlesAt(d, 3 + SenderLength(d), Count(d)) == handles
      && d[SkipHandles(d, 3 + SenderLength(d), Count(d))..] == message
  {
    var d := PacketOf(sender, handles, message);
    PacketFields(sender, handles, message);
    HandlesParseBack(d, 3 + |sender|, handles, message);
    assert |d| - |message| >= 0 && d[|d| - |message|..] == message;
  }

  lemma PacketFields(sender: seq<byte>, handles: seq<seq<byte>>, message: seq<byte>)
    requires Fields(sender, handles)
    ensures
      var d := PacketOf(sender, handles, message);
      && |d| >= 3 + |sender| && d[0] == 6 && SenderLength(d) == |sender| && Count(d) == |handles|
      && d[2..2 + |sender|] == sender && d[3 + |sender|..] == HandleBytes(handles) + message
  {
    var d := PacketOf(sender, handles, message);
    var front, rest := [FLAG_MULTICAST, |sender|], HandleBytes(handles) + message;
    assert d == front + (sender + ([|handles|] + rest));
    assert d[2..] == sender + ([|handles|] + rest);
    assert d[2..][|sender|..] == [|handles|] + rest;
  }

  // ---------------------------------------------------------------- the client

  function SkipSpaces(s: seq<byte>): (r: seq<byte>)
    ensures |r| <= |s| && (r != [] ==> r[0] != SPACE)
  {
    if s != [] && s[0] == SPACE then SkipSpaces(s[1..]) else s
  }

  function WordLength(s: seq<byte>): (n: nat)
    ensures n <= |s| && SPACE !in s[..n] && (n < |s| ==> s[n] == SPACE)
    ensures s != [] && s[0] != SPACE ==> n >= 1
  {
    if s == [] || s[0] == SPACE then 0 else
      assert s == [s[0]] + s[1..];
      1 + WordLength(s[1..])
  }

  /** One call of `strtok` with delimiter " ": the token, and where the next call goes on. */
  function Strtok(s: seq<byte>): (r: Option<(seq<byte>, seq<byte>)>)
    ensures r.Some? ==> |r.value.1| < |s|
  {
    var t := SkipSpaces(s);
    if t == [] then None else
      var n := WordLength(t);
      Some((t[..n], if n < |t| then t[n + 1..] else []))
  }

  lemma {:induction false} WordLengthOf(word: seq<byte>, rest: seq<byte>)
    requires SPACE !in word
    ensures WordLength(word + [SPACE] + rest) == |word|
  {
    var s := word + [SPACE] + rest;
    if word != [] {
      assert s[1..] == word[1..] + [SPACE] + rest;
      WordLengthOf(word[1..], rest);
    }
  }

  lemma {:induction false} SkipSpacesSkips(s: seq<byte>) returns (k: nat)
    ensures k <= |s| && SkipSpaces(s) == s[k..] && forall i :: 0 <= i < k ==> s[i] == SPACE
  {
    if s != [] && s[0] == SPACE {
      k := SkipSpacesSkips(s[1..]);
      assert s[1..][k..] == s[k + 1..];
      assert forall i :: 1 <= i < k + 1 ==> s[i] == s[1..][i - 1];
      k := k + 1;
    } else {
      k := 0;
    }
  }

  /** `strtok` finds the first word of any text: what comes before it is only spaces, it has none, and it
      ends with the text or at a space, behind which the next call goes on. */
  lemma StrtokFindsFirstWord(s: seq<byte>) returns (k: nat)
    ensures k <= |s| && forall i :: 0 <= i < k ==> s[i] == SPACE
    ensures Strtok(s) == None <==> k == |s|
    ensures k < |s| ==>
              var (word, rest) := Strtok(s).value;
              && word != [] && SPACE !in word && word <= s[k..]
              && (if k + |word| == |s| then rest == []
                  else s[k + |word|] == SPACE && rest == s[k + |word| + 1..])
  {
    k := SkipSpacesSkips(s);
    var t := s[k..];
    if t != [] {
      var n := WordLength(t);
      assert n < |t| ==> t[n] == s[k + n] && t[n + 1..] == s[k + n + 1..];
    }
  }

  lemma StrtokTakesWord(word: seq<byte>, rest: seq<byte>)
    requires word != [] && SPACE !in word
    ensures Strtok(word + [SPACE] + rest) == Some((word, rest))
  {
    WordLengthOf(word, rest);
    var s := word + [SPACE] + rest;
    assert SkipSpaces(s) == s && s[..|word|] == word && s[|word| + 1..] == rest;
  }

  predicate IsDigit(b: byte) {
    48 <= b <= 57
  }

  /** `atoi` on the digits a text starts with. */
  function Atoi(text: seq<byte>, sofar: nat): nat
    decreases |text|
  {
    if text == [] || !IsDigit(text[0]) then sofar else Atoi(text[1..], 10 * sofar + (text[0] as int - 48))
  }

  /** The decimal digits of a number. */
  function Decimal(n: nat): (text: seq<byte>)
    ensures text != [] && forall b :: b in text ==> IsDigit(b)
  {
    if n < 10 then [48 + n] else Decimal(n / 10) + [48 + n % 10]
  }

  lemma {:induction false} AtoiOfDigits(text: seq<byte>, digit: byte, rest: seq<byte>, sofar: nat)
    requires (forall b :: b in text ==> IsDigit(b)) && IsDigit(digit) && (rest == [] || !IsDigit(rest[0]))
    ensures Atoi(text + [digit] + rest, sofar) == 10 * Atoi(text, sofar) + (digit as int - 48)
    decreases |text|
  {
    var s := text + [digit] + rest;
    if text == [] {
      assert s[0] == digit && s[1..] == rest;
    } else {
      assert s[1..] == text[1..] + [digit] + rest && s[0] == text[0] && IsDigit(text[0]);
      AtoiOfDigits(text[1..], digit, rest, 10 * sofar + (text[0] as int - 48));
    }
  }

  /** `atoi` reads a number from its digits, and stops at the first character that is none. */
  lemma {:induction false} AtoiReadsDecimal(n: nat, rest: seq<byte>)
    requires rest == [] || !IsDigit(rest[0])
    ensures Atoi(Decimal(n) + rest, 0) == n
    decreases n
  {
    if n < 10 {
      assert Decimal(n) + rest == [] + [48 + n] + rest;
      AtoiOfDigits([], 48 + n, rest, 0);
    } else {
      AtoiReadsDecimal(n / 10, []);
      assert Decimal(n / 10) + [] == Decimal(n / 10);
      AtoiOfDigits(Decimal(n / 10), 48 + n % 10, rest, 0);
    }
  }

  /** The handles of a command, each followed by one space, and then the message. */
  function Arguments(handles: seq<seq<byte>>, message: seq<byte>): seq<byte> {
    if handles == [] then message else handles[0] + [SPACE] + Arguments(handles[1..], message)
  }

  /** A single-spaced command: the verb, the number of handles, the handles, the message. */
  function Command(verb: seq<byte>, count: seq<byte>, handles: seq<seq<byte>>, message: seq<byte>): seq<byte> {
    verb + [SPACE] + (count + [SPACE] + Arguments(handles, message))
  }

  ghost predicate IsCommand(verb: seq<byte>, count: seq<byte>, handles: seq<seq<byte>>) {
    && |verb| == 2 && SPACE !in verb
    && count != [] && (forall b :: b in count ==> IsDigit(b)) && Atoi(count, 0) == |handles| <= 255
    && forall h :: h in handles ==> 1 <= |h| <= 255 && SPACE !in h
  }

  /** So every list of up to 255 handles has a command: its length in digits is a count. */
  lemma EveryListHasCommand(verb: seq<byte>, handles: seq<seq<byte>>)
    requires |verb| == 2 && SPACE !in verb && |handles| <= 255
    requires forall h :: h in handles ==> 1 <= |h| <= 255 && SPACE !in h
    ensures IsCommand(verb, Decimal(|handles|), handles)
    ensures forall n: nat :: IsCommand(verb, Decimal(n), handles) ==> n == |handles|
  {
    forall n: nat
      ensures Atoi(Decimal(n), 0) == n
    {
      AtoiReadsDecimal(n, []);
      assert Decimal(n) + [] == Decimal(n);
    }
  }

  lemma {:induction false} HandleBytesSplit(handles: seq<seq<byte>>, k: nat)
    requires k <= |handles| && forall h :: h in handles ==> |h| <= 255
    ensures HandleBytes(handles) == HandleBytes(handles[..k]) + HandleBytes(handles[k..])
  {
    if k > 0 {
      assert handles[..k][1..] == handles[1..][..k - 1] && handles[1..][k - 1..] == handles[k..];
      HandleBytesSplit(handles[1..], k - 1);
    } else {
      assert handles[0..] == handles;
    }
  }

  lemma OneHandle(h: seq<byte>)
    requires |h| <= 255
    ensures HandleBytes([h]) == [|h|] + h
  {
  }

  /** One handle more: what it adds, and that it still is no more than all of them. */
  lemma NextHandle(handles: seq<seq<byte>>, k: nat)
    requires k < |handles| && forall h :: h in handles ==> |h| <= 255
    ensures HandleBytes(handles[..k + 1]) == HandleBytes(handles[..k]) + ([|handles[k]|] + handles[k])
    ensures |HandleBytes(handles[..k + 1])| <= |HandleBytes(handles)|
  {
    HandleBytesSplit(handles, k + 1);
    HandleBytesSplit(handles[..k + 1], k);
    assert handles[..k + 1][..k] == handles[..k] && handles[..k + 1][k..] == [handles[k]];
    OneHandle(handles[k]);
  }

  lemma {:induction false} ArgumentsLength(handles: seq<seq<byte>>, message: seq<byte>)
    requires forall h :: h in handles ==> |h| <= 255
    ensures |Arguments(handles, message)| == |HandleBytes(handles)| + |message|
    ensures Arguments(handles, message)[|HandleBytes(handles)|..] == message
  {
    if handles != [] {
      ArgumentsLength(handles[1..], message);
    }
  }

  /** `memcpy(&buf[at], bytes, strlen(bytes))`. */
  method CopyTo(buf: array<byte>, at: nat, bytes: seq<byte>)
    requires at + |bytes| <= buf.Length
    modifies buf
    ensures buf[..at + |bytes|] == old(buf[..at]) + bytes
  {
    forall k | 0 <= k < |bytes| {
      buf[at + k] := bytes[k];
    }
  }

  /** The length byte and the bytes of one handle. */
  method AppendHandle(buf: array<byte>, at: nat, tbuf: seq<byte>) returns (next: nat)
    requires |tbuf| <= 255 && at + 1 + |tbuf| <= buf.Length
    modifies buf
    ensures next == at + 1 + |tbuf| && buf[..next] == old(buf[..at]) + ([|tbuf|] + tbuf)
  {
    var hll := |tbuf| % 256;
    CopyTo(buf, at, [hll]);
    CopyTo(buf, at + 1, tbuf[..hll]);
    next := at + 1 + hll;
  }

  /** Between two tokens after the count: `used` handles are in the packet `built` so far, and the next
      token is the next handle. */
  ghost predicate HandlesCopied(clientHandle: seq<byte>, count: seq<byte>, handles: seq<seq<byte>>, message: seq<byte>,
                                used: nat, rest: seq<byte>, built: seq<byte>, copyIndex: nat)
  {
    && |handles| <= 255 && |clientHandle| <= 255 && used <= |handles| && (forall h :: h in handles ==> |h| <= 255)
    && (used < |handles| ==> rest == Arguments(handles[used..], message))
    && built == [FLAG_MULTICAST, |clientHandle|] + clientHandle + [|handles|] + HandleBytes(handles[..used])
    && |HandleBytes(handles[..used])| <= |HandleBytes(handles)|
    && copyIndex == 3 + |count| + |HandleBytes(handles[..used])|
  }

  lemma NoHandleYet(clientHandle: seq<byte>, count: seq<byte>, handles: seq<seq<byte>>, message: seq<byte>)
    requires |handles| <= 255 && |clientHandle| <= 255 && (forall h :: h in handles ==> |h| <= 255)
    ensures HandlesCopied(clientHandle, count, handles, message, 0, Arguments(handles, message),
                          [FLAG_MULTICAST, |clientHandle|] + clientHandle + [|handles|], 3 + |count|)
  {
  }

  lemma Regroup(a: seq<byte>, b: seq<byte>, c: seq<byte>)
    ensures a + b + c == a + (b + c)
  {
  }

  /** Reading one more handle and copying it. */
  lemma OneMoreHandle(clientHandle: seq<byte>, count: seq<byte>, handles: seq<seq<byte>>, message: seq<byte>,
                      used: nat, rest: seq<byte>, built: seq<byte>, copyIndex: nat)
    requires HandlesCopied(clientHandle, count, handles, message, used, rest, built, copyIndex) && used < |handles|
    requires forall h :: h in handles ==> 1 <= |h| && SPACE !in h
    ensures var h := handles[used];
            && Strtok(rest).Some? && Strtok(rest).value.0 == h
            && HandlesCopied(clientHandle, count, handles, message, used + 1, Strtok(rest).value.1,
                             built + ([|h|] + h), copyIndex + 1 + |h|)
  {
    var h := handles[used];
    assert h in handles;
    NextToken(handles, used, message);
    NextHandle(handles, used);
    var head := [FLAG_MULTICAST, |clientHandle|] + clientHandle + [|handles|];
    Regroup(head, HandleBytes(handles[..used]), [|h|] + h);
  }

  /** The byte that holds the number of handles. */
  method AppendCount(buf: array<byte>, at: nat, handleCount: nat) returns (next: nat)
    requires at < buf.Length && handleCount <= 255
    modifies buf
    ensures next == at + 1 && buf[..next] == old(buf[..at]) + [handleCount]
  {
    buf[at] := handleCount % 256;
    next := at + 1;
  }

  /** The multicast branch of `sendToServer`, returning the bytes passed to `sendPDU`. The ghost
      arguments say of what command the line consists. */
  method BuildMulticast(clientHandle: seq<byte>, line: seq<byte>, buf: array<byte>,
                        ghost verb: seq<byte>, ghost count: seq<byte>, ghost handles: seq<seq<byte>>,
                        ghost message: seq<byte>)
    returns (packet: seq<byte>)
    requires IsCommand(verb, count, handles) && line == Command(verb, count, handles, message)
    requires |line| < MAXBUF && |clientHandle| < 100 && buf.Length == SENDBUF
    modifies buf
    ensures packet == PacketOf(clientHandle, handles, message)
  {
    buf[0], buf[1] := FLAG_MULTICAST, |clientHandle|;
    CopyTo(buf, 2, clientHandle);
    assert buf[..2 + |clientHandle|] == [FLAG_MULTICAST, |clientHandle|] + clientHandle;
    var destIndex, copyIndex, rest := CopyHandles(clientHandle, line, buf, verb, count, handles, message);
    packet := AppendMessage(clientHandle, line, buf, destIndex, copyIndex, verb, count, handles, message, rest);
  }

  /** The `strtok` loop: the count and the handles go into the packet, later tokens are passed over. */
  method CopyHandles(clientHandle: seq<byte>, line: seq<byte>, buf: array<byte>,
                     ghost verb: seq<byte>, ghost count: seq<byte>, ghost handles: seq<seq<byte>>,
                     ghost message: seq<byte>)
    returns (destIndex: nat, copyIndex: nat, ghost left: seq<byte>)
    requires IsCommand(verb, count, handles) && line == Command(verb, count, handles, message)
    requires |line| < MAXBUF && |clientHandle| < 100 && buf.Length == SENDBUF
    requires buf[..2 + |clientHandle|] == [FLAG_MULTICAST, |clientHandle|] + clientHandle
    modifies buf
    ensures destIndex <= buf.Length
    ensures HandlesCopied(clientHandle, count, handles, message, |handles|, left, buf[..destIndex], copyIndex)
  {
    ghost var head := [FLAG_MULTICAST, |clientHandle|] + clientHandle;
    ghost var args := count + [SPACE] + Arguments(handles, message);
    ArgumentsLength(handles, message);
    var itr: nat, handleUsed: nat, handleCount: nat := 0, 0, 0;
    destIndex, copyIndex := 2 + |clientHandle|, 2;
    var rest := line;
    var token := Strtok(rest);
    StrtokTakesWord(verb, args);
    while token.Some?
      invariant token == Strtok(rest)
      invariant itr == 0 ==> token == Some((verb, args))
      invariant itr == 1 ==> token == Some((count, Arguments(handles, message)))
      invariant itr <= 1 ==> token.Some? && handleUsed == handleCount == 0 && copyIndex == 2
      invariant itr <= 1 ==> destIndex == |head| && buf[..destIndex] == head
      invariant itr > 1 ==> handleCount == |handles| && (handleUsed < |handles| ==> token.Some?)
      invariant itr > 1 ==> destIndex <= buf.Length
      invariant itr > 1 ==>
        HandlesCopied(clientHandle, count, handles, message, handleUsed, rest, buf[..destIndex], copyIndex)
      decreases |rest|
    {
      var tbuf := token.value.0;
      ghost var before := rest;
      rest := token.value.1;
      if itr == 0 {
        StrtokTakesWord(count, Arguments(handles, message));
      } else if itr == 1 {
        copyIndex := copyIndex + 1 + |tbuf|;
        handleCount := Atoi(tbuf, 0);
        destIndex := AppendCount(buf, destIndex, handleCount);
        NoHandleYet(clientHandle, count, handles, message);
        assert HandlesCopied(clientHandle, count, handles, message, 0, rest, buf[..destIndex], copyIndex);
      } else if handleUsed < handleCount {
        OneMoreHandle(clientHandle, count, handles, message, handleUsed, before, buf[..destIndex], copyIndex);
        copyIndex := copyIndex + 1 + |tbuf|;
        destIndex := AppendHandle(buf, destIndex, tbuf);
        handleUsed := handleUsed + 1;
        assert HandlesCopied(clientHandle, count, handles, message, handleUsed, rest, buf[..destIndex], copyIndex);
      }
      itr := itr + 1;
      token := Strtok(rest);
      TokenAhead(handles, handleUsed, message);
    }
    left := rest;
  }

  /** What follows the token loop: the message is copied from the untouched line. */
  method AppendMessage(clientHandle: seq<byte>, line: seq<byte>, buf: array<byte>, destIndex: nat, copyIndex: nat,
                       ghost verb: seq<byte>, ghost count: seq<byte>, ghost handles: seq<seq<byte>>,
                       ghost message: seq<byte>, ghost rest: seq<byte>)
    returns (packet: seq<byte>)
    requires IsCommand(verb, count, handles) && line == Command(verb, count, handles, message)
    requires |line| < MAXBUF && |clientHandle| < 100 && buf.Length == SENDBUF && destIndex <= buf.Length
    requires HandlesCopied(clientHandle, count, handles, message, |handles|, rest, buf[..destIndex], copyIndex)
    modifies buf
    ensures packet == PacketOf(clientHandle, handles, message)
  {
    assert handles[..|handles|] == handles;
    CommandTail(verb, count, handles, message);
    var start := copyIndex + 1;
    var mlen := |line| - start;
    CopyTo(buf, destIndex, line[start..start + mlen]);
    packet := buf[..destIndex + mlen];
  }

  lemma TokenAhead(handles: seq<seq<byte>>, k: nat, message: seq<byte>)
    requires k <= |handles| && forall h :: h in handles ==> 1 <= |h| <= 255 && SPACE !in h
    ensures k < |handles| ==> Strtok(Arguments(handles[k..], message)).Some?
  {
  }

  lemma NextToken(handles: seq<seq<byte>>, k: nat, message: seq<byte>)
    requires k < |handles| && 1 <= |handles[k]| && SPACE !in handles[k]
    ensures Strtok(Arguments(handles[k..], message)) == Some((handles[k], Arguments(handles[k + 1..], message)))
  {
    assert handles[k..][1..] == handles[k + 1..] && handles[k..][0] == handles[k];
    StrtokTakesWord(handles[k], Arguments(handles[k + 1..], message));
  }

  /** Where the client finds the message in the line it saved. */
  lemma CommandTail(verb: seq<byte>, count: seq<byte>, handles: seq<seq<byte>>, message: seq<byte>)
    requires IsCommand(verb, count, handles)
    ensures var line := Command(verb, count, handles, message);
            var at := 2 + 1 + |count| + 1 + |HandleBytes(handles)|;
            |line| - at == |message| && line[at..] == message
  {
    ArgumentsLength(handles, message);
    var line := Command(verb, count, handles, message);
    var n := 4 + |count|;
    assert line[n..] == Arguments(handles, message);
    assert line[n + |HandleBytes(handles)|..] == line[n..][|HandleBytes(handles)|..];
  }
}

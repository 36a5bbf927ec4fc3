/** The checksum verdicts of the packet tracer (Program_1/trace.c). */
module Trace {
  import opened Bytes
  import opened Checksum

  const PSEUDO_HEADER_SIZE := 12
  const IP_CHECK := 10
  const TCP_CHECK := 16
  const IPPROTO_TCP := 6
  const MEMORY := 65535

  /** `ntohs` on a host of the given byte order. */
  function Ntohs(o: Order, v: word): word {
    match o
    case Little => Swap(v)
    case Big => v
  }

  /** It turns a word read from memory into the number its bytes stand for in network order. */
  lemma NtohsReadsNetworkOrder(o: Order, b0: byte, b1: byte)
    ensures Ntohs(o, Word(o, b0, b1)) == BigEndian([b0, b1])
  {
    WordOrders(b0, b1);
    SwapOfWord(b0, b1);
  }

  lemma NtohsInjective(o: Order, u: word, v: word)
    ensures Ntohs(o, u) == Ntohs(o, v) <==> u == v
  {
  }

  /** The header length in bytes: the low half of the first byte, in words of four bytes. */
  function HeaderLength(first: byte): nat {
    first % 16 * 4
  }

  /** The checksum part of `PrintIpHeader`: the verdict printed for the header at `ip`. */
  method CheckIpHeader(o: Order, packet: array<byte>, ip: nat) returns (correct: bool)
    requires ip + 20 <= packet.Length && ip + HeaderLength(packet[ip]) <= packet.Length
    modifies packet
    ensures correct == FieldMatches(o, old(packet[ip..]), HeaderLength(old(packet[ip])), IP_CHECK)
    ensures packet[..] == Zeroed(old(packet[..]), ip + IP_CHECK)
  {
    ghost var b := packet[ip..];
    var headerLength := HeaderLength(packet[ip]);
    var rx := Word(o, packet[ip + IP_CHECK], packet[ip + IP_CHECK + 1]);
    packet[ip + IP_CHECK], packet[ip + IP_CHECK + 1] := 0, 0;
    var computed := InCksum(o, packet, ip, headerLength);
    assert packet[ip..] == Zeroed(b, IP_CHECK);
    assert packet[ip..ip + headerLength] == packet[ip..][..headerLength];
    correct := rx == computed;
  }

  /** The pseudo-header of RFC 9293 section 3.1, from the IP header `ip`; `htons` is `ntohs`. */
  function PseudoHeader(o: Order, ip: seq<byte>, tcpLength: word): (h: seq<byte>)
    requires |ip| >= 20
    ensures |h| == PSEUDO_HEADER_SIZE
  {
    ip[12..16] + ip[16..20] + [0, IPPROTO_TCP] + Store(o, Ntohs(o, tcpLength))
  }

  /** `ntohs(ip->tot_len) - ip->ihl * 4` in an `unsigned short`. */
  function TcpLength(o: Order, ip: seq<byte>): word
    requires |ip| >= 20
  {
    (Ntohs(o, Word(o, ip[2], ip[3])) - HeaderLength(ip[0])) % 0x1_0000
  }

  lemma OnlyTheHeaderCounts(o: Order, a: seq<byte>, b: seq<byte>)
    requires |a| >= 20 && |b| >= 20 && a[..20] == b[..20]
    ensures TcpLength(o, a) == TcpLength(o, b)
    ensures PseudoHeader(o, a, TcpLength(o, a)) == PseudoHeader(o, b, TcpLength(o, b))
  {
    assert forall k :: 0 <= k < 20 ==> a[k] == a[..20][k] == b[..20][k] == b[k];
    assert a[12..16] == a[..20][12..16] == b[12..16] && a[16..20] == a[..20][16..20] == b[16..20];
  }

  /** Zeroing the field behind the pseudo-header. */
  lemma ZeroedBehind(h: seq<byte>, segment: seq<byte>, n: nat)
    requires |h| == PSEUDO_HEADER_SIZE && TCP_CHECK + 2 <= |segment| && n <= |segment|
    ensures Zeroed(h + segment, PSEUDO_HEADER_SIZE + TCP_CHECK)[..PSEUDO_HEADER_SIZE + n]
         == h + Zeroed(segment, TCP_CHECK)[..n]
  {
  }

  /** The three copies of `calculate_tcp_checksum`: zeros, the pseudo-header, the segment. */
  method FillScratch(ptr: array<byte>, h: seq<byte>, packet: array<byte>, tcp: nat, n: nat)
    requires packet != ptr && |h| == PSEUDO_HEADER_SIZE
    requires tcp + n <= packet.Length && PSEUDO_HEADER_SIZE + n <= ptr.Length == MEMORY
    modifies ptr
    ensures ptr[0..0 + (PSEUDO_HEADER_SIZE + n)] == h + packet[tcp..][..n]
  {
    forall k | 0 <= k < ptr.Length {
      ptr[k] := 0;
    }
    forall k | 0 <= k < PSEUDO_HEADER_SIZE {
      ptr[k] := h[k];
    }
    forall k | 0 <= k < n {
      ptr[PSEUDO_HEADER_SIZE + k] := packet[tcp + k];
    }
    assert ptr[..PSEUDO_HEADER_SIZE] == h;
  }

  /** `calculate_tcp_checksum`: the verdict printed for the segment at `tcp`, over the segment with
      its pseudo-header in front, built in the scratch memory `ptr`. */
  method CheckTcpSegment(o: Order, packet: array<byte>, ip: nat, tcp: nat, ptr: array<byte>) returns (correct: bool)
    requires packet != ptr && ptr.Length == MEMORY
    requires ip + 20 <= tcp && tcp + TCP_CHECK + 2 <= packet.Length
    requires tcp + TcpLength(o, packet[ip..]) <= packet.Length
    requires PSEUDO_HEADER_SIZE + TcpLength(o, packet[ip..]) <= MEMORY
    modifies packet, ptr
    ensures
      var header := old(packet[ip..]);
      var n := TcpLength(o, header);
      correct == FieldMatches(o, PseudoHeader(o, header, n) + old(packet[tcp..]), PSEUDO_HEADER_SIZE + n,
                              PSEUDO_HEADER_SIZE + TCP_CHECK)
    ensures packet[..] == Zeroed(old(packet[..]), tcp + TCP_CHECK)
  {
    ghost var header, segment := packet[ip..], packet[tcp..];
    var rx := Ntohs(o, Word(o, packet[tcp + TCP_CHECK], packet[tcp + TCP_CHECK + 1]));
    packet[tcp + TCP_CHECK], packet[tcp + TCP_CHECK + 1] := 0, 0;
    var n := TcpLength(o, packet[ip..]);
    var h := PseudoHeader(o, packet[ip..], n);
    assert packet[ip..][..20] == header[..20];
    OnlyTheHeaderCounts(o, packet[ip..], header);
    assert packet[tcp..] == Zeroed(segment, TCP_CHECK);
    FillScratch(ptr, h, packet, tcp, n);
    var computed := InCksum(o, ptr, 0, PSEUDO_HEADER_SIZE + n);
    ghost var b := h + segment;
    ZeroedBehind(h, segment, n);
    NtohsInjective(o, computed, Word(o, b[PSEUDO_HEADER_SIZE + TCP_CHECK], b[PSEUDO_HEADER_SIZE + TCP_CHECK + 1]));
    correct := Ntohs(o, computed) == rx;
  }

  // ---------------------------------------------------------------- the verdicts

  /** A header of version `version` with `ihl` words of four bytes. */
  ghost predicate Starts(header: seq<byte>, version: nat, ihl: nat) {
    |header| >= 20 && version < 16 && 5 <= ihl < 16 && header[0] == 16 * version + ihl
  }

  lemma HeaderLengthIs(version: nat, ihl: nat)
    requires version < 16 && ihl < 16
    ensures HeaderLength(16 * version + ihl) == 4 * ihl
  {
  }

  /** Only the bytes that are checked count. */
  lemma MatchesPrefix(o: Order, b: seq<byte>, n: nat, f: nat)
    requires f + 2 <= n <= |b|
    ensures FieldMatches(o, b, n, f) <==> FieldMatches(o, b[..n], n, f)
  {
    assert Zeroed(b, f)[..n] == Zeroed(b[..n], f)[..n];
  }

  /** The tracer calls an IP header correct exactly when RFC 1071 does for the `4 * ihl` bytes of the
      header, except that it rejects a received 0xFFFF where 0x0000 was computed; on any host, and
      whatever follows the header. */
  lemma IpVerdict(o: Order, b: seq<byte>, version: nat, ihl: nat)
    requires Starts(b, version, ihl) && 4 * ihl <= |b|
    ensures var header := b[..4 * ihl];
            FieldMatches(o, b, HeaderLength(b[0]), IP_CHECK) <==>
            SumsToOnes(Big, header)
            && !(BigEndian(b[10..12]) == 0xFFFF && Cksum(Big, Zeroed(header, 10)) == 0)
  {
    var n := 4 * ihl;
    var header := b[..n];
    HeaderLengthIs(version, ihl);
    MatchesPrefix(o, b, n, IP_CHECK);
    VerdictIgnoresOrder(header, n, IP_CHECK);
    ComparisonAgreesWithRfc(Big, header, IP_CHECK);
    TwoOctets(b[10..12]);
  }

  /** The length of the segment on any host: what the header announces beyond itself, in 16 bits. */
  lemma TcpLengthIs(o: Order, ip: seq<byte>, version: nat, ihl: nat)
    requires Starts(ip, version, ihl)
    ensures var n := BigEndian(ip[2..4]) - 4 * ihl;
            TcpLength(o, ip) == if n >= 0 then n else n + 0x1_0000
  {
    HeaderLengthIs(version, ihl);
    NtohsReadsNetworkOrder(o, ip[2], ip[3]);
    assert ip[2..4] == [ip[2], ip[3]];
    TwoOctets(ip[2..4]);
    var announced := Ntohs(o, Word(o, ip[2], ip[3]));
    assert announced == BigEndian(ip[2..4]) && HeaderLength(ip[0]) == 4 * ihl;
    assert -60 <= announced - 4 * ihl < 0x1_0000;
  }

  /** The pseudo-header on any host: both addresses, a zero byte, protocol 6, the length in network order. */
  lemma PseudoHeaderFields(o: Order, ip: seq<byte>, n: word)
    requires |ip| >= 20
    ensures var h := PseudoHeader(o, ip, n);
            h[..8] == ip[12..20] && h[8] == 0 && h[9] == 6 && BigEndian(h[10..12]) == n
    ensures PseudoHeader(o, ip, n) == PseudoHeader(Big, ip, n)
  {
    var h := PseudoHeader(o, ip, n);
    var field := Store(o, Ntohs(o, n));
    assert h[10..12] == field && field == [field[0], field[1]];
    NtohsReadsNetworkOrder(o, field[0], field[1]);
    NtohsTwice(o, n);
    StoreOfSwap(Swap(n));
    NtohsTwice(Little, n);
  }

  lemma NtohsTwice(o: Order, v: word)
    ensures Ntohs(o, Ntohs(o, v)) == v
  {
    SwapParts(v);
    SwapParts(Swap(v));
  }

  lemma PseudoHeaderSum(o: Order, ip: seq<byte>, n: word)
    requires |ip| >= 20
    ensures WordSum(Big, PseudoHeader(o, ip, n)) == WordSum(Big, ip[12..20]) + 6 + n
  {
    PseudoHeaderFields(o, ip, n);
    var h := PseudoHeader(o, ip, n);
    var last := h[8..];
    assert h == ip[12..20] + last;
    WordSumOfParts(Big, ip[12..20], last);
    TwoOctets(h[10..12]);
    assert last[2..] == h[10..12] && last[2..][2..] == [];
    assert WordSum(Big, last) == Word(Big, last[0], last[1]) + WordSum(Big, last[2..]);
    assert WordSum(Big, last[2..]) == Word(Big, h[10], h[11]) + WordSum(Big, last[2..][2..]);
  }

  /** The sum that RFC 9293 section 3.1 asks for: both addresses, protocol 6, the length, the segment. */
  ghost function TcpSum(ip: seq<byte>, segment: seq<byte>): nat
    requires |ip| >= 20
  {
    WordSum(Big, ip[12..20]) + 6 + |segment| + WordSum(Big, segment)
  }

  /** The verdict of RFC 1071 on a total, except for a received 0xFFFF where 0x0000 was computed from
      the total without the field. */
  predicate SumIsRight(total: nat, field: nat, withoutField: nat) {
    Fold(total) == 0xFFFF && !(field == 0xFFFF && Fold(withoutField) == 0xFFFF)
  }

  lemma VerdictBySums(o: Order, b: seq<byte>, n: nat, f: nat, received: seq<byte>, total: nat, withoutField: nat)
    requires f % 2 == 0 && f + 2 <= n == |b| && received == b[f..f + 2]
    requires total == WordSum(Big, b) && withoutField == WordSum(Big, Zeroed(b, f))
    ensures FieldMatches(o, b, n, f) <==> SumIsRight(total, BigEndian(received), withoutField)
  {
    VerdictIgnoresOrder(b, |b|, f);
    ComparisonAgreesWithRfc(Big, b, f);
    TwoOctets(b[f..f + 2]);
  }

  lemma SegmentSums(h: seq<byte>, segment: seq<byte>, b: seq<byte>, f: nat)
    requires |h| == PSEUDO_HEADER_SIZE && |segment| >= 20
    requires b == h + segment && f == PSEUDO_HEADER_SIZE + TCP_CHECK
    ensures b[f..f + 2] == segment[16..18]
    ensures WordSum(Big, b) == WordSum(Big, h) + WordSum(Big, segment)
    ensures WordSum(Big, Zeroed(b, f)) == WordSum(Big, h) + WordSum(Big, Zeroed(segment, 16))
  {
    WordSumOfParts(Big, h, segment);
    WordSumOfParts(Big, h, Zeroed(segment, 16));
    assert Zeroed(b, f) == h + Zeroed(segment, 16);
  }

  lemma SegmentVerdict(o: Order, h: seq<byte>, tail: seq<byte>, segment: seq<byte>, n: nat, f: nat,
                       received: seq<byte>, total: nat, withoutField: nat)
    requires |h| == PSEUDO_HEADER_SIZE && segment <= tail && |segment| >= 20
    requires n == PSEUDO_HEADER_SIZE + |segment| && f == PSEUDO_HEADER_SIZE + TCP_CHECK
    requires received == segment[16..18]
    requires total == WordSum(Big, h) + WordSum(Big, segment)
    requires withoutField == WordSum(Big, h) + WordSum(Big, Zeroed(segment, 16))
    ensures FieldMatches(o, h + tail, n, f) <==> SumIsRight(total, BigEndian(received), withoutField)
  {
    var b := (h + tail)[..n];
    assert b == h + segment;
    SegmentSums(h, segment, b, f);
    MatchesPrefix(o, h + tail, n, f);
    VerdictBySums(o, b, n, f, received, total, withoutField);
  }

  /** The tracer's verdict on the segment of `n` bytes that the total length of the IP header announces,
      by the sums of RFC 9293 and RFC 1071: correct exactly when everything sums to 0xFFFF, with the
      same exception; on any host, and whatever follows the segment. */
  lemma TcpVerdict(o: Order, ip: seq<byte>, version: nat, ihl: nat, tail: seq<byte>, n: nat)
    requires Starts(ip, version, ihl) && BigEndian(ip[2..4]) == 4 * ihl + n && 20 <= n <= |tail|
    ensures TcpLength(o, ip) == n
    ensures FieldMatches(o, PseudoHeader(o, ip, TcpLength(o, ip)) + tail, PSEUDO_HEADER_SIZE + n,
                         PSEUDO_HEADER_SIZE + TCP_CHECK) <==>
            SumIsRight(TcpSum(ip, tail[..n]), BigEndian(tail[16..18]), TcpSum(ip, Zeroed(tail[..n], 16)))
  {
    TcpLengthIs(o, ip, version, ihl);
    PseudoHeaderSum(o, ip, TcpLength(o, ip));
    var h, segment := PseudoHeader(o, ip, TcpLength(o, ip)), tail[..n];
    assert segment[16..18] == tail[16..18];
    SegmentVerdict(o, h, tail, segment, PSEUDO_HEADER_SIZE + n, PSEUDO_HEADER_SIZE + TCP_CHECK, tail[16..18],
                   TcpSum(ip, segment), TcpSum(ip, Zeroed(segment, 16)));
  }
}

/** The Internet checksum (Program_1/checksum.c) and what RFC 1071 promises of it.

    The C code reads 16-bit words in the byte order of the host, so every definition takes that
    order as a parameter. Program_3 links a library version of the same routine. */
module Checksum {
  import opened Bytes

  datatype Order = Little | Big

  type word = x: int | 0 <= x <= 0xFFFF

  newtype int32 = x: int | -0x8000_0000 <= x < 0x8000_0000

  /** Two bytes in memory read as an `unsigned short`. */
  function Word(o: Order, b0: byte, b1: byte): word {
    match o
    case Little => b0 + 0x100 * b1
    case Big => 0x100 * b0 + b1
  }

  /** An `unsigned short` as it lies in memory. */
  function Store(o: Order, v: word): (b: seq<byte>)
    ensures |b| == 2 && Word(o, b[0], b[1]) == v
  {
    match o
    case Little => [v % 0x100, v / 0x100]
    case Big => [v / 0x100, v % 0x100]
  }

  /** The sum of the words of a buffer, an odd last byte completed with a zero byte. */
  function WordSum(o: Order, b: seq<byte>): nat {
    if b == [] then 0
    else if |b| == 1 then Word(o, b[0], 0)
    else Word(o, b[0], b[1]) + WordSum(o, b[2..])
  }

  /** Word `i` of a buffer. */
  function WordAt(o: Order, b: seq<byte>, i: nat): word
    requires 2 * i < |b|
  {
    Word(o, b[2 * i], if 2 * i + 1 < |b| then b[2 * i + 1] else 0)
  }

  /** The one's complement value of a sum: its end-around-carry reduction to 16 bits. */
  function Fold(n: nat): word {
    if n == 0 then 0 else 1 + (n - 1) % 0xFFFF
  }

  /** The checksum of RFC 1071: the complement of the one's complement sum. */
  function Cksum(o: Order, b: seq<byte>): word {
    0xFFFF - Fold(WordSum(o, b))
  }

  // ---------------------------------------------------------------- arithmetic modulo 2^16 - 1

  ghost predicate Congruent(a: int, b: int) {
    (a - b) % 0xFFFF == 0
  }

  /** `Fold(n)` is the one value of 0..0xFFFF congruent to `n` that is zero only for `n == 0`. */
  lemma FoldIsUnique(n: nat, r: word)
    ensures r == Fold(n) <==> Congruent(r, n) && (r == 0 <==> n == 0)
  {
  }

  lemma FoldFromDifference(n: nat, r: word, m: int)
    requires r - n == 0xFFFF * m && (r == 0 <==> n == 0)
    ensures r == Fold(n)
  {
  }

  /** Folding the carries of a non-negative 32-bit sum twice, as the C code does, is enough. */
  lemma TwoFoldsSuffice(n: nat)
    requires n < 0x8000_0000
    ensures var once := n / 0x1_0000 + n % 0x1_0000;
            (once + once / 0x1_0000) % 0x1_0000 == Fold(n)
  {
    var hi, lo := n / 0x1_0000, n % 0x1_0000;
    var once := hi + lo;
    assert once - n == 0xFFFF * -hi;
    if once < 0x1_0000 {
      FoldFromDifference(n, once, -hi);
    } else {
      assert once / 0x1_0000 == 1;
      FoldFromDifference(n, once - 0xFFFF, -hi - 1);
    }
  }

  lemma {:induction false} WordSumBound(o: Order, b: seq<byte>)
    ensures WordSum(o, b) <= 0xFFFF * ((|b| + 1) / 2)
  {
    if |b| >= 2 {
      WordSumBound(o, b[2..]);
      assert (|b| + 1) / 2 == (|b[2..]| + 1) / 2 + 1;
    }
  }

  /** The bound on the length is needed: one more pair of bytes can overflow the accumulator. */
  lemma {:induction false} OnesSum(o: Order, b: seq<byte>)
    requires |b| % 2 == 0 && forall k :: 0 <= k < |b| ==> b[k] == 0xFF
    ensures WordSum(o, b) == 0xFFFF * (|b| / 2)
    ensures |b| > 0x1_0000 ==> WordSum(o, b) >= 0x8000_0000
  {
    if b != [] {
      OnesSum(o, b[2..]);
      assert |b| / 2 == |b[2..]| / 2 + 1;
    }
  }

  lemma TailWord(o: Order, b: seq<byte>, i: nat)
    requires i + 2 <= |b|
    ensures WordSum(o, b[i..]) == Word(o, b[i], b[i + 1]) + WordSum(o, b[i + 2..])
  {
    assert b[i..][2..] == b[i + 2..];
  }

  /** `in_cksum` on the `len` bytes at `start`. The accumulator is a C `int`; it never overflows. */
  method InCksum(o: Order, addr: array<byte>, start: nat, len: nat) returns (answer: word)
    requires start + len <= addr.Length && len <= 0x1_0000
    ensures answer == Cksum(o, addr[start..start + len])
  {
    ghost var b := addr[start..start + len];
    ghost var total: nat, rest: nat := WordSum(o, b), WordSum(o, b);
    var sum: int32 := 0;
    var w := start;
    var nleft := len;
    WordSumBound(o, b);
    assert b[0..] == b;
    while nleft > 1
      invariant 0 <= nleft <= len && w + nleft == start + len
      invariant rest == WordSum(o, b[w - start..])
      invariant 0 <= sum as int && sum as int + rest == total < 0x8000_0000
    {
      TailWord(o, b, w - start);
      ghost var word := Word(o, addr[w], addr[w + 1]);
      assert sum as int + word <= total;
      sum := sum + Word(o, addr[w], addr[w + 1]) as int32;
      rest := rest - word;
      w := w + 2;
      nleft := nleft - 2;
    }
    if nleft == 1 {
      assert b[w - start..] == [addr[w]];
      sum := sum + Word(o, addr[w], 0) as int32;
    }
    answer := FoldSum(sum);
  }

  /** The two folds and the complement at the end of `in_cksum`. */
  method FoldSum(total: int32) returns (answer: word)
    requires total >= 0
    ensures answer == 0xFFFF - Fold(total as int)
  {
    TwoFoldsSuffice(total as int);
    var sum := total / 0x1_0000 + total % 0x1_0000;
    assert sum as int == total as int / 0x1_0000 + total as int % 0x1_0000;
    sum := sum + sum / 0x1_0000;
    answer := 0xFFFF - sum as int % 0x1_0000;
  }

  // ---------------------------------------------------------------- what is summed

  /** Which byte of a word is the high one, on a host of either order. */
  lemma WordOrders(b0: byte, b1: byte)
    ensures Word(Big, b0, b1) == BigEndian([b0, b1]) && Word(Little, b0, b1) == BigEndian([b1, b0])
  {
    TwoOctets([b0, b1]);
    TwoOctets([b1, b0]);
  }

  /** Section 1 of RFC 1071: an odd last byte is summed as if a zero byte followed it. */
  lemma {:induction false} OddByteIsPadded(o: Order, b: seq<byte>)
    requires |b| % 2 == 1
    ensures WordSum(o, b) == WordSum(o, b + [0])
    decreases |b|
  {
    if |b| > 1 {
      assert (b + [0])[2..] == b[2..] + [0];
      OddByteIsPadded(o, b[2..]);
    } else {
      assert (b + [0])[2..] == [];
      assert WordSum(o, (b + [0])[2..]) == 0;
    }
  }

  /** The sum of the first `k` words. */
  function TotalOfWords(o: Order, b: seq<byte>, k: nat): nat
    requires 2 * k <= |b| + 1
  {
    if k == 0 then 0 else TotalOfWords(o, b, k - 1) + WordAt(o, b, k - 1)
  }

  lemma {:induction false} TotalFromSecond(o: Order, b: seq<byte>, k: nat)
    requires |b| >= 2 && 2 * k <= |b| - 1
    ensures TotalOfWords(o, b, k + 1) == Word(o, b[0], b[1]) + TotalOfWords(o, b[2..], k)
  {
    if k == 0 {
      assert TotalOfWords(o, b, 1) == TotalOfWords(o, b, 0) + WordAt(o, b, 0);
    } else {
      TotalFromSecond(o, b, k - 1);
      assert WordAt(o, b, k) == WordAt(o, b[2..], k - 1);
    }
  }

  /** Every word of the buffer is summed once. */
  lemma {:induction false} WordSumIsTotal(o: Order, b: seq<byte>)
    ensures WordSum(o, b) == TotalOfWords(o, b, (|b| + 1) / 2)
    decreases |b|
  {
    if |b| == 1 {
      assert TotalOfWords(o, b, 1) == TotalOfWords(o, b, 0) + WordAt(o, b, 0);
    } else if |b| >= 2 {
      WordSumIsTotal(o, b[2..]);
      TotalFromSecond(o, b, (|b| - 1) / 2);
      assert (|b[2..]| + 1) / 2 == (|b| - 1) / 2;
    }
  }

  /** Sums of parts add up when the first part ends on a word. */
  lemma {:induction false} WordSumOfParts(o: Order, a: seq<byte>, b: seq<byte>)
    requires |a| % 2 == 0
    ensures WordSum(o, a + b) == WordSum(o, a) + WordSum(o, b)
    decreases |a|
  {
    if a == [] {
      assert a + b == b;
    } else {
      assert (a + b)[2..] == a[2..] + b;
      WordSumOfParts(o, a[2..], b);
    }
  }

  // ---------------------------------------------------------------- byte order independence

  function Swap(v: word): word {
    v % 0x100 * 0x100 + v / 0x100
  }

  lemma {:induction false} SumsOfOrders(b: seq<byte>) returns (k: nat)
    ensures 0x100 * WordSum(Little, b) == WordSum(Big, b) + 0xFFFF * k
    ensures WordSum(Little, b) == 0 <==> WordSum(Big, b) == 0
  {
    if |b| <= 1 {
      k := 0;
    } else {
      k := SumsOfOrders(b[2..]);
      k := k + b[1];
    }
  }

  /** Section 2 (B) of RFC 1071: the same bytes summed on a machine of the other byte order give the
      byte-swapped checksum, for even and odd lengths alike. */
  lemma ByteOrderIndependence(b: seq<byte>)
    ensures Cksum(Big, b) == Swap(Cksum(Little, b))
    ensures Store(Big, Cksum(Big, b)) == Store(Little, Cksum(Little, b))
  {
    var k := SumsOfOrders(b);
    SwapOfFold(WordSum(Little, b), WordSum(Big, b), k);
    SwapOfComplement(Fold(WordSum(Little, b)));
    StoreOfSwap(Cksum(Little, b));
  }

  lemma SwapOfFold(l: nat, g: nat, k: nat)
    requires 0x100 * l == g + 0xFFFF * k
    requires l == 0 <==> g == 0
    ensures Fold(g) == Swap(Fold(l))
  {
    var f := Fold(l);
    var q := FoldDifference(l);
    var hi, lo: int := f / 0x100, f % 0x100;
    assert f == 0x100 * hi + lo && Swap(f) == 0x100 * lo + hi;
    FoldFromDifference(g, Swap(f), k - 0x100 * q - hi);
  }

  lemma FoldDifference(n: nat) returns (q: nat)
    ensures n == Fold(n) + 0xFFFF * q
    ensures Fold(n) == 0 <==> n == 0
  {
    q := if n == 0 then 0 else (n - 1) / 0xFFFF;
  }

  lemma SwapOfComplement(f: word)
    ensures Swap(0xFFFF - f) == 0xFFFF - Swap(f)
  {
  }

  lemma StoreOfSwap(v: word)
    ensures Store(Big, Swap(v)) == Store(Little, v)
  {
  }

  // ---------------------------------------------------------------- checking a received field

  /** The buffer with its checksum field, at even offset `f`, set to zero. */
  function Zeroed(b: seq<byte>, f: nat): (z: seq<byte>)
    requires f + 2 <= |b|
    ensures |z| == |b|
  {
    b[f := 0][f + 1 := 0]
  }

  /** The check all three programs make: recompute over `n` bytes with the field zeroed, compare. */
  predicate FieldMatches(o: Order, b: seq<byte>, n: nat, f: nat)
    requires f + 2 <= |b| && n <= |b|
  {
    Cksum(o, Zeroed(b, f)[..n]) == Word(o, b[f], b[f + 1])
  }

  /** The check of section 1 of RFC 1071: the sum over everything, field included, is all ones. */
  predicate SumsToOnes(o: Order, b: seq<byte>) {
    Fold(WordSum(o, b)) == 0xFFFF
  }

  /** The buffers differ at most in word `i`. */
  ghost predicate SameButWord(a: seq<byte>, b: seq<byte>, i: nat) {
    |a| == |b| && 2 * i < |a| && forall k :: 0 <= k < |a| && k / 2 != i ==> a[k] == b[k]
  }

  lemma {:induction false} OneWordDifference(o: Order, a: seq<byte>, b: seq<byte>, i: nat)
    requires SameButWord(a, b, i)
    ensures WordSum(o, b) - WordAt(o, b, i) == WordSum(o, a) - WordAt(o, a, i) >= 0
    decreases i
  {
    if i > 0 {
      SameButWordTail(a, b, i);
      FirstWord(o, a, i);
      FirstWord(o, b, i);
      OneWordDifference(o, a[2..], b[2..], i - 1);
    } else if |a| >= 2 {
      SameButFirstWord(a, b);
      WordZero(o, a);
      WordZero(o, b);
    }
  }

  lemma WordZero(o: Order, b: seq<byte>)
    requires |b| >= 2
    ensures WordSum(o, b) == WordAt(o, b, 0) + WordSum(o, b[2..])
  {
  }

  lemma FirstWord(o: Order, b: seq<byte>, i: nat)
    requires 0 < 2 * i < |b|
    ensures WordSum(o, b) == Word(o, b[0], b[1]) + WordSum(o, b[2..])
    ensures WordAt(o, b, i) == WordAt(o, b[2..], i - 1)
  {
  }

  lemma SameButFirstWord(a: seq<byte>, b: seq<byte>)
    requires SameButWord(a, b, 0) && |a| >= 2
    ensures a[2..] == b[2..]
  {
  }

  lemma SameButWordTail(a: seq<byte>, b: seq<byte>, i: nat)
    requires SameButWord(a, b, i) && i > 0
    ensures SameButWord(a[2..], b[2..], i - 1) && a[0] == b[0] && a[1] == b[1]
  {
  }

  lemma ZeroedSum(o: Order, b: seq<byte>, f: nat)
    requires f % 2 == 0 && f + 2 <= |b|
    ensures WordSum(o, b) == WordSum(o, Zeroed(b, f)) + Word(o, b[f], b[f + 1])
  {
    OneWordDifference(o, b, Zeroed(b, f), f / 2);
  }

  /** Zeroing the field and comparing agrees with the check of RFC 1071, except on one kind of input:
      the received field is 0xFFFF where 0x0000 was computed. */
  lemma ComparisonAgreesWithRfc(o: Order, b: seq<byte>, f: nat)
    requires f % 2 == 0 && f + 2 <= |b|
    ensures FieldMatches(o, b, |b|, f) <==>
            SumsToOnes(o, b) && !(Word(o, b[f], b[f + 1]) == 0xFFFF && Cksum(o, Zeroed(b, f)) == 0)
  {
    ZeroedSum(o, b, f);
    WholeBufferMatches(o, b, f);
    ComplementCompletes(WordSum(o, Zeroed(b, f)), Word(o, b[f], b[f + 1]));
  }

  lemma ComplementCompletes(z: nat, field: word)
    ensures 0xFFFF - Fold(z) == field <==>
            Fold(z + field) == 0xFFFF && !(field == 0xFFFF && Fold(z) == 0xFFFF)
  {
  }

  /** The verdict does not depend on the byte order of the machine that checks. */
  lemma VerdictIgnoresOrder(b: seq<byte>, n: nat, f: nat)
    requires f + 2 <= |b| && n <= |b|
    ensures FieldMatches(Big, b, n, f) <==> FieldMatches(Little, b, n, f)
  {
    ByteOrderIndependence(Zeroed(b, f)[..n]);
    SwapOfWord(b[f], b[f + 1]);
    SwapInjective(Cksum(Little, Zeroed(b, f)[..n]), Word(Little, b[f], b[f + 1]));
  }

  lemma SwapOfWord(b0: byte, b1: byte)
    ensures Word(Big, b0, b1) == Swap(Word(Little, b0, b1))
  {
  }

  lemma SwapInjective(v: word, u: word)
    ensures Swap(v) == Swap(u) <==> v == u
  {
    SwapParts(v);
    SwapParts(u);
  }

  lemma SwapParts(v: word)
    ensures Swap(v) / 0x100 == v % 0x100 && Swap(v) % 0x100 == v / 0x100
  {
    var hi, lo: int := v / 0x100, v % 0x100;
    assert Swap(v) == 0x100 * lo + hi;
  }

  /** The two representations of zero in one's complement. */
  predicate OppositeZeros(u: word, v: word) {
    (u == 0x0000 && v == 0xFFFF) || (u == 0xFFFF && v == 0x0000)
  }

  /** A change confined to one word outside the field goes unnoticed exactly when it swaps 0x0000 and
      0xFFFF while some other word counts; a change of the field is always noticed. */
  lemma OneWordChange(o: Order, a: seq<byte>, b: seq<byte>, f: nat, i: nat)
    requires f % 2 == 0 && f + 2 <= |a| && a != b && SameButWord(a, b, i)
    requires FieldMatches(o, a, |a|, f)
    ensures FieldMatches(o, b, |b|, f) <==>
            && 2 * i != f
            && OppositeZeros(WordAt(o, a, i), WordAt(o, b, i))
            && WordSum(o, Zeroed(a, f)) > WordAt(o, a, i)
  {
    DifferentWords(o, a, b, i);
    WholeBufferMatches(o, a, f);
    WholeBufferMatches(o, b, f);
    if 2 * i == f {
      FieldChange(o, a, b, i);
    } else {
      ChangeOutsideField(o, a, b, f, i);
      SameField(a, b, f, i);
      FoldsDiffer(WordSum(o, Zeroed(a, f)) - WordAt(o, a, i), WordAt(o, a, i), WordAt(o, b, i));
    }
  }

  lemma WholeBufferMatches(o: Order, b: seq<byte>, f: nat)
    requires f + 2 <= |b|
    ensures FieldMatches(o, b, |b|, f) <==> 0xFFFF - Fold(WordSum(o, Zeroed(b, f))) == Word(o, b[f], b[f + 1])
  {
    assert Zeroed(b, f)[..|b|] == Zeroed(b, f);
  }

  lemma FieldChange(o: Order, a: seq<byte>, b: seq<byte>, i: nat)
    requires 2 * i + 2 <= |a| && SameButWord(a, b, i)
    ensures Zeroed(a, 2 * i) == Zeroed(b, 2 * i)
    ensures WordAt(o, a, i) == Word(o, a[2 * i], a[2 * i + 1]) && WordAt(o, b, i) == Word(o, b[2 * i], b[2 * i + 1])
  {
  }

  lemma SameField(a: seq<byte>, b: seq<byte>, f: nat, i: nat)
    requires f % 2 == 0 && f + 2 <= |a| && SameButWord(a, b, i) && 2 * i != f
    ensures a[f] == b[f] && a[f + 1] == b[f + 1]
  {
  }

  lemma ChangeOutsideField(o: Order, a: seq<byte>, b: seq<byte>, f: nat, i: nat)
    requires f % 2 == 0 && f + 2 <= |a| && SameButWord(a, b, i) && 2 * i != f
    ensures WordSum(o, Zeroed(b, f)) - WordAt(o, b, i) == WordSum(o, Zeroed(a, f)) - WordAt(o, a, i) >= 0
  {
    var za, zb := Zeroed(a, f), Zeroed(b, f);
    assert SameButWord(za, zb, i);
    assert WordAt(o, za, i) == WordAt(o, a, i) && WordAt(o, zb, i) == WordAt(o, b, i);
    OneWordDifference(o, za, zb, i);
  }

  lemma DifferentWords(o: Order, a: seq<byte>, b: seq<byte>, i: nat)
    requires a != b && SameButWord(a, b, i)
    ensures WordAt(o, a, i) != WordAt(o, b, i)
  {
  }

  lemma FoldsDiffer(rest: nat, u: word, v: word)
    requires u != v
    ensures Fold(rest + u) == Fold(rest + v) <==> rest > 0 && OppositeZeros(u, v)
  {
  }
}

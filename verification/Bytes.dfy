/** Octets and the few value helpers shared by the modules of this project. */
module Bytes {

  type byte = x: int | 0 <= x < 256

  function Min(a: int, b: int): int {
    if a <= b then a else b
  }

  /** The four octets of a 32-bit value in network order (`htonl` followed by `memcpy`). */
  function Be32(v: nat): seq<byte> {
    [v / 0x100_0000 % 256, v / 0x1_0000 % 256, v / 0x100 % 256, v % 256]
  }

  /** The number that octets in network order stand for: the most significant one comes first. */
  function BigEndian(b: seq<byte>): nat {
    if b == [] then 0 else 0x100 * BigEndian(b[..|b| - 1]) + b[|b| - 1]
  }

  lemma TwoOctets(b: seq<byte>)
    requires |b| == 2
    ensures BigEndian(b) == 0x100 * b[0] as int + b[1]
  {
    var one := b[..1];
    assert one[..0] == [];
    assert BigEndian(one) == b[0];
  }

  lemma FourOctets(b: seq<byte>)
    requires |b| == 4
    ensures BigEndian(b) == 0x100_0000 * b[0] as int + 0x1_0000 * b[1] as int + 0x100 * b[2] as int + b[3]
  {
    var three, two := b[..3], b[..2];
    assert three[..2] == two;
    TwoOctets(two);
    assert BigEndian(three) == 0x100 * BigEndian(two) + b[2];
  }

  lemma OctetsAddUp(v: nat)
    requires v < 0x1_0000_0000
    ensures 0x100_0000 * (v / 0x100_0000 % 256) + 0x1_0000 * (v / 0x1_0000 % 256) + 0x100 * (v / 0x100 % 256) + v % 256
         == v
  {
    var a, b := v / 0x1_0000, v / 0x100;
    assert v == 0x100 * b + v % 0x100;
    assert b == 0x100 * a + b % 0x100 && b / 0x100 == a;
    assert a == 0x100 * (a / 0x100) + a % 0x100 && a / 0x100 == v / 0x100_0000;
  }

  /** The octets of a 32-bit value stand for it. */
  lemma Be32IsBigEndian(v: nat)
    requires v < 0x1_0000_0000
    ensures BigEndian(Be32(v)) == v
  {
    FourOctets(Be32(v));
    OctetsAddUp(v);
  }
}

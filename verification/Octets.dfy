/**
  Octet strings: fixed-width types, `memcmp`, and network byte order.
  Everything that the daemons put on a wire or compare bytewise goes through here.
*/
module Octets {

  type Byte = x: int | 0 <= x < 0x100
  type U16 = x: int | 0 <= x < 0x10000
  type U32 = x: int | 0 <= x < 0x1_0000_0000

  type RouterId = s: seq<Byte> | |s| == 8 witness seq(8, _ => 0)
  type Prefix = s: seq<Byte> | |s| == 16 witness seq(16, _ => 0)

  function Min(a: int, b: int): int { if a <= b then a else b }
  function Max(a: int, b: int): int { if a <= b then b else a }

  /** The sign of C's `memcmp` on two blocks of the same length. */
  function Memcmp(a: seq<Byte>, b: seq<Byte>): (c: int)
    requires |a| == |b|
    ensures c == 0 <==> a == b
    ensures -1 <= c <= 1
  {
    if a == [] then 0
    else if a[0] < b[0] then -1
    else if a[0] > b[0] then 1
    else
      assert a == [a[0]] + a[1..] && b == [b[0]] + b[1..];
      Memcmp(a[1..], b[1..])
  }

  lemma {:induction false} MemcmpAntisymmetric(a: seq<Byte>, b: seq<Byte>)
    requires |a| == |b|
    ensures Memcmp(a, b) == -Memcmp(b, a)
  {
    if a != [] && a[0] == b[0] {
      MemcmpAntisymmetric(a[1..], b[1..]);
    }
  }

  lemma {:induction false} MemcmpTransitive(a: seq<Byte>, b: seq<Byte>, c: seq<Byte>)
    requires |a| == |b| == |c|
    requires Memcmp(a, b) <= 0 && Memcmp(b, c) <= 0
    ensures Memcmp(a, c) <= 0
    ensures Memcmp(a, b) < 0 || Memcmp(b, c) < 0 ==> Memcmp(a, c) < 0
  {
    if a != [] && a[0] == b[0] == c[0] {
      MemcmpTransitive(a[1..], b[1..], c[1..]);
    }
  }

  /** The first octet in which two blocks differ, or their length. */
  function FirstDifference(a: seq<Byte>, b: seq<Byte>): (k: nat)
    requires |a| == |b|
    ensures k <= |a| && a[..k] == b[..k] && (k < |a| ==> a[k] != b[k])
  {
    if a == [] || a[0] != b[0] then 0
    else
      var k := FirstDifference(a[1..], b[1..]);
      assert a[..k + 1] == [a[0]] + a[1..][..k] && b[..k + 1] == [b[0]] + b[1..][..k];
      k + 1
  }

  /** It decides, as numbers without sign are compared. */
  lemma {:induction false} MemcmpLexicographic(a: seq<Byte>, b: seq<Byte>)
    requires |a| == |b|
    ensures var k := FirstDifference(a, b);
      Memcmp(a, b) == if k == |a| then 0 else if a[k] < b[k] then -1 else 1
  {
    if a != [] && a[0] == b[0] { MemcmpLexicographic(a[1..], b[1..]); }
  }

  /** `DO_HTONS`, `stream_putw`: most significant octet first. */
  function Put16(v: U16): (s: seq<Byte>)
    ensures |s| == 2 && Get16(s) == v
  {
    [v / 0x100, v % 0x100]
  }

  function Get16(s: seq<Byte>): U16
    requires |s| >= 2
  {
    var hi: int, lo: int := s[0], s[1];
    hi * 0x100 + lo
  }

  /** `stream_putl`. */
  function Put32(v: U32): (s: seq<Byte>)
    ensures |s| == 4 && Get32(s) == v
  {
    assert forall a: seq<Byte>, b: seq<Byte> | |a| == |b| == 2 :: (a + b)[..2] == a && (a + b)[2..4] == b;
    Put16(v / 0x1_0000) + Put16(v % 0x1_0000)
  }

  function Get32(s: seq<Byte>): U32
    requires |s| >= 4
  {
    var hi: int, lo: int := Get16(s[..2]), Get16(s[2..4]);
    hi * 0x1_0000 + lo
  }

  /** The octets of a 32-bit number, most significant first. */
  lemma Put32Octets(v: U32)
    ensures Put32(v) == [v / 0x100_0000, v / 0x1_0000 % 0x100, v / 0x100 % 0x100, v % 0x100]
  {
    HighOctets(v);
    LowOctets(v);
  }

  lemma HighOctets(v: U32)
    ensures v / 0x1_0000 / 0x100 == v / 0x100_0000
  {
  }

  lemma LowOctets(v: U32)
    ensures v % 0x1_0000 / 0x100 == v / 0x100 % 0x100 && v % 0x1_0000 % 0x100 == v % 0x100
  {
  }
}

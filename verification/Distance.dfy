/**
  Sequence numbers modulo 2^16 and Babel's feasibility distances
  (quagga-srx/babeld/util.h, and the comparisons in route.c and source.c).
*/
module Distance {
  import opened Octets

  /** Metric of an unreachable destination. */
  const INFINITY: U16 := 0xFFFF

  /** `seqno_compare`: bit 15 of `s2 - s1` decides. */
  function SeqnoCompare(s1: U16, s2: U16): int
  {
    if s1 == s2 then 0 else if (s2 - s1) % 0x10000 >= 0x8000 then 1 else -1
  }

  /** `seqno_minus`: the difference as a signed 16-bit value. */
  function SeqnoMinus(s1: U16, s2: U16): int
  {
    var d := (s1 - s2) % 0x10000;
    if d >= 0x8000 then d - 0x10000 else d
  }

  /** `seqno_plus`. */
  function SeqnoPlus(s: U16, plus: int): U16
  {
    (s + plus) % 0x10000
  }

  /** Up to half of the circle ahead is later. */
  lemma SeqnoPlusLater(s: U16, n: int)
    requires 0 < n < 0x8000
    ensures SeqnoCompare(SeqnoPlus(s, n), s) > 0 && SeqnoMinus(SeqnoPlus(s, n), s) == n
  {
  }

  /** Position of `s` on the circle, counted upwards from `base`. */
  function Offset(base: U16, s: U16): nat
  {
    (s - base) % 0x10000
  }

  /** `s` lies in the half circle that starts at `base`. */
  predicate InWindow(base: U16, s: U16)
  {
    Offset(base, s) < 0x8000
  }

  /** Inside one half circle the circular comparison is the order of the integers. */
  lemma CompareIsIntegerOrder(base: U16, a: U16, b: U16)
    requires InWindow(base, a) && InWindow(base, b)
    ensures SeqnoCompare(a, b) > 0 <==> Offset(base, a) > Offset(base, b)
    ensures SeqnoCompare(a, b) < 0 <==> Offset(base, a) < Offset(base, b)
    ensures SeqnoCompare(a, b) == 0 <==> Offset(base, a) == Offset(base, b)
    ensures SeqnoMinus(a, b) == Offset(base, a) - Offset(base, b)
  {
    var x: int, y: int := Offset(base, a), Offset(base, b);
    assert a - base == x || a - base == x - 0x10000;
    assert b - base == y || b - base == y - 0x10000;
  }

  /** Outside a half circle the comparison is not even transitive. */
  lemma CompareCyclesOutsideWindow()
    ensures SeqnoCompare(0x6000, 0) > 0 && SeqnoCompare(0xC000, 0x6000) > 0
    ensures SeqnoCompare(0, 0xC000) > 0
  {
  }

  /** A (seqno, metric) pair; smaller is better, newer beats everything older. */
  datatype Dist = Dist(seqno: U16, metric: U16)

  predicate Better(a: Dist, b: Dist)
  {
    SeqnoCompare(a.seqno, b.seqno) > 0 || (a.seqno == b.seqno && a.metric < b.metric)
  }

  predicate NoWorse(a: Dist, b: Dist)
  {
    a == b || Better(a, b)
  }

  lemma BetterTransitive(base: U16, a: Dist, b: Dist, c: Dist)
    requires InWindow(base, a.seqno) && InWindow(base, b.seqno) && InWindow(base, c.seqno)
    requires NoWorse(a, b) && NoWorse(b, c)
    ensures NoWorse(a, c)
    ensures Better(a, b) || Better(b, c) ==> Better(a, c)
  {
    CompareIsIntegerOrder(base, a.seqno, b.seqno);
    CompareIsIntegerOrder(base, b.seqno, c.seqno);
    CompareIsIntegerOrder(base, a.seqno, c.seqno);
  }

  lemma BetterTotal(base: U16, a: Dist, b: Dist)
    requires InWindow(base, a.seqno) && InWindow(base, b.seqno)
    ensures Better(a, b) || a == b || Better(b, a)
    ensures !(Better(a, b) && NoWorse(b, a))
  {
    CompareIsIntegerOrder(base, a.seqno, b.seqno);
    CompareIsIntegerOrder(base, b.seqno, a.seqno);
  }
}

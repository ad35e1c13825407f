/**
  AS paths (quagga-srx/bgpd/bgp_aspath.c): segments, hop counts, and the normal
  form that makes equal paths look equal.
*/
module AsPath {
  import opened Octets
  import opened Sorting

  const AS_SET: Byte := 1
  const AS_SEQUENCE: Byte := 2
  const AS_CONFED_SEQUENCE: Byte := 3
  const AS_CONFED_SET: Byte := 4

  datatype Segment = Segment(typ: Byte, asns: seq<U32>)
  {
    predicate IsSet() { typ == AS_SET || typ == AS_CONFED_SET }
    predicate IsSequence() { typ == AS_SEQUENCE }
  }

  type Path = seq<Segment>

  // ---------- Counting ----------

  function SegmentHops(s: Segment): nat
  {
    if s.typ == AS_SEQUENCE then |s.asns| else if s.typ == AS_SET then 1 else 0
  }

  function SegmentConfeds(s: Segment): nat
  {
    if s.typ == AS_CONFED_SEQUENCE then |s.asns| else if s.typ == AS_CONFED_SET then 1 else 0
  }

  function Hops(p: Path): nat { if p == [] then 0 else SegmentHops(p[0]) + Hops(p[1..]) }

  function Confeds(p: Path): nat { if p == [] then 0 else SegmentConfeds(p[0]) + Confeds(p[1..]) }

  lemma {:induction false} CountsAppend(p: Path, q: Path)
    ensures Hops(p + q) == Hops(p) + Hops(q) && Confeds(p + q) == Confeds(p) + Confeds(q)
  {
    if p == [] {
      assert p + q == q;
    } else {
      assert (p + q)[1..] == p[1..] + q;
      CountsAppend(p[1..], q);
    }
  }

  /** `aspath_count_hops` and `aspath_count_confeds`: loops over the chain. */
  method CountHops(p: Path) returns (hops: nat, confeds: nat)
    ensures hops == Hops(p) && confeds == Confeds(p)
  {
    hops, confeds := 0, 0;
    var i := 0;
    assert p[0..] == p;
    while i < |p|
      invariant 0 <= i <= |p|
      invariant hops + Hops(p[i..]) == Hops(p) && confeds + Confeds(p[i..]) == Confeds(p)
    {
      assert p[i..][1..] == p[i + 1..];
      if p[i].typ == AS_SEQUENCE {
        hops := hops + |p[i].asns|;
      } else if p[i].typ == AS_SET {
        hops := hops + 1;
      } else if p[i].typ == AS_CONFED_SEQUENCE {
        confeds := confeds + |p[i].asns|;
      } else if p[i].typ == AS_CONFED_SET {
        confeds := confeds + 1;
      }
      i := i + 1;
    }
  }

  // ---------- Normal form ----------

  /** The members of a set segment, ascending and without repetition. */
  function Members(asns: seq<U32>): (r: seq<U32>)
  {
    var r := SortUniq(asns);
    assert forall i | 0 <= i < |r| :: 0 <= r[i] < 0x1_0000_0000 by { SortUniqAscends(asns); InRange(asns, r); }
    r
  }

  lemma MembersIs(asns: seq<U32>)
    ensures Members(asns) == Dedup(Sort<int>(IntLe(), asns))
  {
  }

  lemma MembersAscend(asns: seq<U32>)
    ensures Ascending(Members(asns)) && forall x: U32 :: x in Members(asns) <==> x in asns
  {
    SortUniqAscends(asns);
  }

  function NormalSegment(s: Segment): Segment
  {
    if s.IsSet() then Segment(s.typ, Members(s.asns)) else s
  }

  /** `assegment_normalise`: sets sorted without repetition, runs of AS_SEQUENCE merged. */
  function Normalise(p: Path): Path
  {
    if p == [] then []
    else
      var n := Normalise(p[1..]);
      if p[0].IsSequence() && n != [] && n[0].IsSequence()
      then [Segment(AS_SEQUENCE, p[0].asns + n[0].asns)] + n[1..]
      else [NormalSegment(p[0])] + n
  }

  lemma NormaliseHead(p: Path)
    requires p != []
    ensures Normalise(p) != [] && Normalise(p)[0].typ == p[0].typ
  {
  }

  /** Merging two adjacent sequences early does not matter. */
  lemma NormaliseMerge(a: Segment, b: Segment, rest: Path)
    requires a.IsSequence() && b.IsSequence()
    ensures Normalise([a, b] + rest) == Normalise([Segment(AS_SEQUENCE, a.asns + b.asns)] + rest)
  {
    assert ([a, b] + rest)[1..] == [b] + rest;
    assert ([b] + rest)[1..] == rest;
    assert ([Segment(AS_SEQUENCE, a.asns + b.asns)] + rest)[1..] == rest;
    var n := Normalise(rest);
    if n != [] && n[0].IsSequence() {
      assert a.asns + (b.asns + n[0].asns) == a.asns + b.asns + n[0].asns;
    }
  }

  lemma NormaliseStop(a: Segment, rest: Path)
    requires !(a.IsSequence() && rest != [] && rest[0].IsSequence())
    ensures Normalise([a] + rest) == [NormalSegment(a)] + Normalise(rest)
  {
    assert ([a] + rest)[1..] == rest;
    if rest != [] { NormaliseHead(rest); }
  }

  /** The in-place loop that weeds out duplicates from a sorted array. */
  method WeedOut(a: array<U32>) returns (len: nat)
    requires a.Length > 0
    modifies a
    ensures 1 <= len <= a.Length && a[..len] == Dedup(old(a[..]))
  {
    var tail, i := 0, 1;
    while i < a.Length
      invariant tail < i <= a.Length
      invariant a[..tail + 1] == Dedup(old(a[..])[..i])
      invariant a[tail] == old(a[..])[i - 1]
      invariant forall j | i <= j < a.Length :: a[j] == old(a[..])[j]
    {
      assert old(a[..])[..i + 1][..i] == old(a[..])[..i];
      if a[tail] != a[i] {
        tail := tail + 1;
        a[tail] := a[i];
        assert a[..tail + 1] == Dedup(old(a[..])[..i]) + [a[tail]];
      }
      i := i + 1;
    }
    assert old(a[..])[..a.Length] == old(a[..]);
    len := tail + 1;
  }

  /** `qsort` with `int_cmp`. */
  method SortAsns(asns: seq<U32>) returns (r: seq<U32>)
    ensures r == Sort<int>(IntLe(), asns)
  {
    var sorted := Sort<int>(IntLe(), asns);
    assert forall x :: x in sorted ==> x in asns by {
      assert forall x :: x in sorted <==> x in multiset(sorted);
      assert forall x :: x in asns <==> x in multiset(asns);
    }
    InRange(asns, sorted);
    r := sorted;
  }

  method WeedSorted(sorted: seq<U32>) returns (r: seq<U32>)
    ensures r == Dedup(sorted)
  {
    if |sorted| == 0 { return []; }
    var a := new U32[|sorted|](i requires 0 <= i < |sorted| => sorted[i]);
    assert a[..] == sorted;
    var len := WeedOut(a);
    r := a[..len];
  }

  /** What `assegment_normalise` does to a segment that absorbs nothing: sets are sorted and weeded. */
  method NormaliseOne(s: Segment) returns (r: Segment)
    ensures r == NormalSegment(s)
  {
    if !s.IsSet() { return s; }
    var sorted := SortAsns(s.asns);
    var members := WeedSorted(sorted);
    MembersIs(s.asns);
    r := Segment(s.typ, members);
  }

  /** The inner loop of `assegment_normalise`: the pinned sequence absorbs the sequences that follow it. */
  method Absorb(head: Segment, chain: Path) returns (pin: Segment, rest: Path)
    ensures Normalise([head] + chain) == Normalise([pin] + rest) && |rest| <= |chain|
    ensures !(pin.IsSequence() && rest != [] && rest[0].IsSequence())
  {
    pin, rest := head, chain;
    while rest != [] && pin.IsSequence() && rest[0].IsSequence()
      invariant Normalise([head] + chain) == Normalise([pin] + rest) && |rest| <= |chain|
      decreases |rest|
    {
      NormaliseMerge(pin, rest[0], rest[1..]);
      assert [pin, rest[0]] + rest[1..] == [pin] + rest;
      pin := Segment(AS_SEQUENCE, pin.asns + rest[0].asns);
      rest := rest[1..];
    }
  }

  /** One round of the outer loop. */
  method NormaliseFirst(chain: Path) returns (first: Segment, rest: Path)
    requires chain != []
    ensures Normalise(chain) == [first] + Normalise(rest) && |rest| < |chain|
  {
    var pin;
    pin, rest := Absorb(chain[0], chain[1..]);
    assert chain == [chain[0]] + chain[1..];
    NormaliseStop(pin, rest);
    first := NormaliseOne(pin);
  }

  /** `assegment_normalise`. */
  method NormaliseChain(head: Path) returns (r: Path)
    ensures r == Normalise(head)
  {
    r := [];
    var rest := head;
    while rest != []
      invariant Normalise(head) == r + Normalise(rest)
      decreases |rest|
    {
      var first, rest' := NormaliseFirst(rest);
      r, rest := r + [first], rest';
    }
  }

  /** `aspath_cmp`. */
  method Equal(p: Path, q: Path) returns (r: bool)
    ensures r <==> p == q
  {
    var i := 0;
    while i < |p| || i < |q|
      invariant 0 <= i <= |p| && i <= |q| && p[..i] == q[..i]
      decreases |p| - i
    {
      if i >= |p| || i >= |q| { return false; }
      if p[i].typ != q[i].typ { return false; }
      if |p[i].asns| != |q[i].asns| { return false; }
      var j := 0;
      while j < |p[i].asns|
        invariant 0 <= j <= |p[i].asns| && p[i].asns[..j] == q[i].asns[..j]
      {
        if p[i].asns[j] != q[i].asns[j] { return false; }
        j := j + 1;
      }
      assert p[i].asns[..j] == p[i].asns && q[i].asns[..j] == q[i].asns;
      i := i + 1;
    }
    assert p[..i] == p && q[..i] == q;
    r := true;
  }

  // ---------- What normalisation keeps ----------

  lemma {:induction false} NormaliseCounts(p: Path)
    ensures Hops(Normalise(p)) == Hops(p) && Confeds(Normalise(p)) == Confeds(p)
  {
    if p != [] {
      NormaliseCounts(p[1..]);
      var n := Normalise(p[1..]);
      if p[0].IsSequence() && n != [] && n[0].IsSequence() {
        assert Normalise(p)[1..] == n[1..];
      } else {
        assert Normalise(p)[1..] == n;
      }
    }
  }

  /** No AS_SEQUENCE next to another, sets ascending. */
  ghost predicate Normal(p: Path)
  {
    && (forall i | 0 <= i < |p| - 1 :: !(p[i].IsSequence() && p[i + 1].IsSequence()))
    && (forall s <- p | s.IsSet() :: Ascending(s.asns))
  }

  lemma {:induction false} NormaliseIsNormal(p: Path)
    ensures Normal(Normalise(p))
  {
    if p != [] {
      NormaliseIsNormal(p[1..]);
      MembersAscend(p[0].asns);
    }
  }

  lemma {:induction false} NormalIsFixed(p: Path)
    requires Normal(p)
    ensures Normalise(p) == p
  {
    if p != [] {
      assert Normal(p[1..]);
      NormalIsFixed(p[1..]);
      assert p == [p[0]] + p[1..];
      if p[0].IsSet() {
        assert p[0] in p;
        MembersAscend(p[0].asns);
        SameMembers(Members(p[0].asns), p[0].asns);
      }
    }
  }

  lemma NormaliseIdempotent(p: Path)
    ensures Normalise(Normalise(p)) == Normalise(p)
  {
    NormaliseIsNormal(p);
    NormalIsFixed(Normalise(p));
  }

  // ---------- What a path means ----------

  /** A path without its accidents: hops one by one, sets as sets. */
  datatype Item = Hop(asn: U32) | SetOf(typ: Byte, members: set<U32>) | Whole(segment: Segment)

  function Items(s: Segment): seq<Item>
  {
    if s.IsSequence() then seq(|s.asns|, i requires 0 <= i < |s.asns| => Hop(s.asns[i]))
    else if s.IsSet() then [SetOf(s.typ, set x: U32 | x in s.asns)]
    else [Whole(s)]
  }

  function Meaning(p: Path): seq<Item> { if p == [] then [] else Items(p[0]) + Meaning(p[1..]) }

  lemma ItemsOfNormal(s: Segment)
    ensures Items(NormalSegment(s)) == Items(s)
  {
    if s.IsSet() {
      MembersAscend(s.asns);
      assert (set x: U32 | x in Members(s.asns)) == (set x: U32 | x in s.asns);
    }
  }

  lemma ItemsOfMerged(a: seq<U32>, b: seq<U32>)
    ensures Items(Segment(AS_SEQUENCE, a + b)) == Items(Segment(AS_SEQUENCE, a)) + Items(Segment(AS_SEQUENCE, b))
  {
  }

  lemma MeaningCons(s: Segment, p: Path)
    ensures Meaning([s] + p) == Items(s) + Meaning(p)
  {
    assert ([s] + p)[1..] == p;
  }

  lemma {:induction false} NormaliseKeepsMeaning(p: Path)
    ensures Meaning(Normalise(p)) == Meaning(p)
  {
    if p != [] {
      var a, n := p[0], Normalise(p[1..]);
      NormaliseKeepsMeaning(p[1..]);
      if a.IsSequence() && n != [] && n[0].IsSequence() {
        assert a == Segment(AS_SEQUENCE, a.asns) && n[0] == Segment(AS_SEQUENCE, n[0].asns);
        ItemsOfMerged(a.asns, n[0].asns);
        MeaningCons(Segment(AS_SEQUENCE, a.asns + n[0].asns), n[1..]);
        assert Items(a) + (Items(n[0]) + Meaning(n[1..])) == Items(a) + Items(n[0]) + Meaning(n[1..]);
      } else {
        ItemsOfNormal(a);
        MeaningCons(NormalSegment(a), n);
      }
    }
  }

  /** Every ASN that a path mentions, of whatever segment. */
  function Asns(p: Path): set<U32> { set s, x | s in p && x in s.asns :: x }

  ghost predicate NoEmptySequence(p: Path) { forall s <- p | s.IsSequence() :: s.asns != [] }

  lemma {:induction false} NormaliseNoEmpty(p: Path)
    requires NoEmptySequence(p)
    ensures NoEmptySequence(Normalise(p))
  {
    if p != [] {
      NormaliseNoEmpty(p[1..]);
      assert p[0] in p;
    }
  }

  lemma {:induction false} NormaliseAsns(p: Path, x: U32)
    ensures x in Asns(Normalise(p)) <==> x in Asns(p)
  {
    if p != [] {
      var a, n := p[0], Normalise(p[1..]);
      NormaliseAsns(p[1..], x);
      assert p == [a] + p[1..];
      AsnsCons(a, p[1..], x);
      if a.IsSequence() && n != [] && n[0].IsSequence() {
        assert n == [n[0]] + n[1..];
        AsnsCons(n[0], n[1..], x);
        AsnsCons(Segment(AS_SEQUENCE, a.asns + n[0].asns), n[1..], x);
      } else {
        MembersAscend(a.asns);
        AsnsCons(NormalSegment(a), n, x);
      }
    }
  }

  lemma AsnsCons(s: Segment, p: Path, x: U32)
    ensures x in Asns([s] + p) <==> x in s.asns || x in Asns(p)
  {
    if x in s.asns { assert s in [s] + p; }
    if t :| t in p && x in t.asns { assert t in [s] + p; }
  }

  // ---------- The normal form is canonical ----------

  ghost predicate StartsWithHop(items: seq<Item>) { items != [] && items[0].Hop? }

  lemma MeaningStart(p: Path)
    requires NoEmptySequence(p) && p != []
    ensures Meaning(p) != [] && (Meaning(p)[0].Hop? <==> p[0].IsSequence())
  {
    assert p[0] in p;
  }

  /** The leading run of hops tells the first sequence apart from the rest. */
  lemma HopRunUnique(a: seq<U32>, b: seq<U32>, x: seq<Item>, y: seq<Item>)
    requires Items(Segment(AS_SEQUENCE, a)) + x == Items(Segment(AS_SEQUENCE, b)) + y
    requires !StartsWithHop(x) && !StartsWithHop(y)
    ensures a == b && x == y
  {
    var i, j := Items(Segment(AS_SEQUENCE, a)), Items(Segment(AS_SEQUENCE, b));
    assert forall k | 0 <= k < |a| :: (i + x)[k].Hop?;
    assert forall k | 0 <= k < |b| :: (j + y)[k].Hop?;
    assert |i| < |i + x| ==> !(i + x)[|i|].Hop?;
    assert |j| < |j + y| ==> !(j + y)[|j|].Hop?;
    assert |a| == |b|;
    forall k | 0 <= k < |a| ensures a[k] == b[k] {
      assert (i + x)[k] == i[k] && (j + y)[k] == j[k];
    }
    assert x == (i + x)[|a|..] && y == (j + y)[|b|..];
  }

  lemma SegmentUnique(a: Segment, b: Segment, x: seq<Item>, y: seq<Item>)
    requires !a.IsSequence() && !b.IsSequence() && Items(a) + x == Items(b) + y
    requires a.IsSet() ==> Ascending(a.asns)
    requires b.IsSet() ==> Ascending(b.asns)
    ensures a == b && x == y
  {
    assert (Items(a) + x)[0] == Items(a)[0] && (Items(b) + y)[0] == Items(b)[0];
    assert x == (Items(a) + x)[1..] && y == (Items(b) + y)[1..];
    if a.IsSet() {
      assert forall v: U32 :: v in a.asns <==> v in Items(a)[0].members;
      assert forall v: U32 :: v in b.asns <==> v in Items(b)[0].members;
      SameMembers(a.asns, b.asns);
    }
  }

  lemma {:induction false} NormalByMeaning(p: Path, q: Path)
    requires Normal(p) && Normal(q) && NoEmptySequence(p) && NoEmptySequence(q) && Meaning(p) == Meaning(q)
    ensures p == q
  {
    if p == [] {
      if q != [] { MeaningStart(q); }
    } else {
      MeaningStart(p);
      assert q != [];
      MeaningStart(q);
      assert p[0] in p && q[0] in q;
      var p', q' := p[1..], q[1..];
      assert Normal(p') && Normal(q');
      if p' != [] { MeaningStart(p'); }
      if q' != [] { MeaningStart(q'); }
      if p[0].IsSequence() {
        assert p[0] == Segment(AS_SEQUENCE, p[0].asns) && q[0] == Segment(AS_SEQUENCE, q[0].asns);
        HopRunUnique(p[0].asns, q[0].asns, Meaning(p'), Meaning(q'));
      } else {
        SegmentUnique(p[0], q[0], Meaning(p'), Meaning(q'));
      }
      NormalByMeaning(p', q');
      assert p == [p[0]] + p' && q == [q[0]] + q';
    }
  }

  /**
    The normal form is canonical: two paths without empty AS_SEQUENCE segments have the same
    normal form exactly when they differ only in how sequences are split and in the order
    and repetition inside sets.
  */
  lemma NormaliseCanonical(p: Path, q: Path)
    requires NoEmptySequence(p) && NoEmptySequence(q)
    ensures Normalise(p) == Normalise(q) <==> Meaning(p) == Meaning(q)
  {
    NormaliseKeepsMeaning(p);
    NormaliseKeepsMeaning(q);
    NormaliseIsNormal(p);
    NormaliseIsNormal(q);
    NormaliseNoEmpty(p);
    NormaliseNoEmpty(q);
    if Meaning(p) == Meaning(q) {
      NormalByMeaning(Normalise(p), Normalise(q));
    }
  }
}

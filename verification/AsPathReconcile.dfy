/**
  Reconciling AS_PATH with AS4_PATH (aspath_reconcile_as4 in
  quagga-srx/bgpd/bgp_aspath.c): old speakers see large AS numbers as AS_TRANS,
  and the AS4_PATH attribute that they pass on brings the real ones back.
*/
module AsPathReconcile {
  import opened Octets
  import opened Lists
  import opened Sorting
  import opened AsPath
  import opened AsPathWire

  /** No confederation segments. */
  ghost predicate Plain(p: Path) { forall s <- p :: s.typ == AS_SET || s.typ == AS_SEQUENCE }

  lemma {:induction false} PlainCounts(p: Path)
    requires Plain(p)
    ensures Confeds(p) == 0 && (NoEmptySequence(p) ==> (Hops(p) == 0 <==> p == []))
  {
    if p != [] {
      assert p[0] in p;
      PlainCounts(p[1..]);
    }
  }

  /** Hops as the truncation counts them: confederation segments too. */
  function Total(p: Path): nat { Hops(p) + Confeds(p) }

  function Weight(s: Segment): nat { if s.IsSet() then 1 else |s.asns| }

  /** The segments that account for the first `hops` hops; an AS_CONFED_SEQUENCE is never split. */
  function Front(p: Path, hops: int): Path
  {
    if p == [] || hops <= 0 then []
    else if p[0].typ == AS_SEQUENCE
    then [Segment(AS_SEQUENCE, p[0].asns[..Min(|p[0].asns|, hops)])] + Front(p[1..], hops - Weight(p[0]))
    else [p[0]] + Front(p[1..], hops - Weight(p[0]))
  }

  lemma PlainHops(p: Path)
    requires Plain(p) && p != []
    ensures Hops(p) == Weight(p[0]) + Hops(p[1..])
  {
    assert p[0] in p;
  }

  /** How many hops of AS_PATH go in front; all of them when AS4_PATH is too long. */
  function Kept(path: Path, as4: Path): nat
  {
    var hops := Total(path) - Hops(as4);
    if hops < 0 then Hops(path) else hops
  }

  /** `aspath_reconcile_as4`. */
  function Reconcile(path: Path, as4: Path): Path
  {
    if Kept(path, as4) == 0 then as4 else Normalise(Front(path, Kept(path, as4)) + as4)
  }

  /** One turn of the switch: how many AS numbers are copied, how many hops remain. */
  method Account(s: Segment, hops: int) returns (cpasns: nat, left: int)
    requires ValidType(s.typ) && hops > 0
    ensures cpasns <= |s.asns| && Front([s], hops) == [Segment(s.typ, s.asns[..cpasns])]
    ensures left == hops - Weight(s) || (left == 0 && hops <= Weight(s))
  {
    left := hops;
    if s.typ == AS_SET || s.typ == AS_CONFED_SET {
      left := left - 1;
      cpasns := |s.asns|;
    } else {
      if s.typ == AS_CONFED_SEQUENCE && left < |s.asns| {
        left := |s.asns|;
      }
      cpasns := Min(|s.asns|, left);
      left := left - |s.asns|;
    }
    assert s.asns[..|s.asns|] == s.asns;
  }

  lemma FrontStep(p: Path, hops: int)
    requires p != [] && hops > 0
    ensures Front(p, hops) == Front([p[0]], hops) + Front(p[1..], hops - Weight(p[0]))
  {
    assert [p[0]][1..] == [];
  }

  lemma FrontMoves(p: Path, i: nat, left: int, left': int, seg: Segment)
    requires i < |p| && left > 0 && Front([p[i]], left) == [seg]
    requires left' == left - Weight(p[i]) || (left' == 0 && left <= Weight(p[i]))
    ensures Front(p[i..], left) == [seg] + Front(p[i + 1..], left')
  {
    FrontStep(p[i..], left);
    assert p[i..][1..] == p[i + 1..];
    assert Front(p[i + 1..], left') == Front(p[i + 1..], left - Weight(p[i]));
  }

  /** The truncation loop. */
  method Truncate(p: Path, hops: int) returns (r: Path)
    requires Typed(p)
    ensures r == Front(p, hops)
  {
    var left, i := hops, 0;
    r := [];
    assert p[0..] == p;
    while i < |p| && left > 0
      invariant 0 <= i <= |p|
      invariant Front(p, hops) == r + Front(p[i..], left)
    {
      var cpasns, left' := Account(p[i], left);
      var seg := Segment(p[i].typ, p[i].asns[..cpasns]);
      FrontMoves(p, i, left, left', seg);
      MoveOn(Front(p, hops), r, seg, Front(p[i + 1..], left'), r + [seg]);
      r, left, i := r + [seg], left', i + 1;
    }
  }

  /** `aspath_reconcile_as4`. */
  method ReconcileAs4(path: Path, as4: Path) returns (merged: Path)
    requires Typed(path)
    ensures merged == Reconcile(path, as4)
  {
    var h, c := CountHops(path);
    var h4, _ := CountHops(as4);
    var hops := (h as int) + c - h4;
    if hops < 0 { hops := h; }
    assert hops == Kept(path, as4);
    if hops == 0 { return as4; }
    var front := Truncate(path, hops);
    assert Reconcile(path, as4) == Normalise(front + as4);
    merged := NormaliseChain(front + as4);
  }

  // ---------- How long the result is ----------

  /** The boundary falls inside an AS_CONFED_SEQUENCE. */
  predicate CutsConfed(p: Path, hops: int)
  {
    p != [] && hops > 0
    && ((p[0].typ == AS_CONFED_SEQUENCE && hops < |p[0].asns|) || CutsConfed(p[1..], hops - Weight(p[0])))
  }

  lemma TotalCons(s: Segment, p: Path)
    requires ValidType(s.typ)
    ensures Total([s] + p) == Weight(s) + Total(p)
  {
    assert ([s] + p)[1..] == p;
  }

  lemma {:induction false} FrontTotal(p: Path, hops: int)
    requires Typed(p) && 0 <= hops <= Total(p)
    ensures Total(Front(p, hops)) >= hops
    ensures Total(Front(p, hops)) == hops <==> !CutsConfed(p, hops)
  {
    if p != [] && hops > 0 {
      assert p[0] in p && p == [p[0]] + p[1..];
      var w := Weight(p[0]);
      TotalCons(p[0], p[1..]);
      TotalCons(Front(p, hops)[0], Front(p[1..], hops - w));
      if hops >= w {
        FrontTotal(p[1..], hops - w);
      }
    }
  }

  /**
    The result is never shorter than AS_PATH, and as long exactly when AS4_PATH is not longer and
    the boundary does not fall inside an AS_CONFED_SEQUENCE.
  */
  lemma ReconcileTotal(path: Path, as4: Path)
    requires Typed(path) && Confeds(as4) == 0
    ensures Total(Reconcile(path, as4)) >= Total(path)
    ensures Total(Reconcile(path, as4)) == Total(path)
       <==> Hops(as4) <= Total(path) && !CutsConfed(path, Total(path) - Hops(as4))
  {
    var n := Kept(path, as4);
    FrontTotal(path, n);
    CountsAppend(Front(path, n), as4);
    NormaliseCounts(Front(path, n) + as4);
  }

  lemma {:induction false} NoConfedCut(p: Path, hops: int)
    requires Typed(p) && Confeds(p) == 0
    ensures !CutsConfed(p, hops) && Confeds(Front(p, hops)) == 0
  {
    if p != [] && hops > 0 {
      assert p[0] in p;
      NoConfedCut(p[1..], hops - Weight(p[0]));
      assert Front(p, hops)[1..] == Front(p[1..], hops - Weight(p[0]));
    }
  }

  /** Without confederations: the hop count of AS_PATH, or the sum if AS4_PATH is longer. */
  lemma ReconcileHops(path: Path, as4: Path)
    requires Typed(path) && Confeds(path) == 0 && Confeds(as4) == 0
    ensures Hops(Reconcile(path, as4)) == if Hops(as4) <= Hops(path) then Hops(path) else Hops(path) + Hops(as4)
  {
    var n := Kept(path, as4);
    FrontTotal(path, n);
    NoConfedCut(path, n);
    ReconciledHops(path, as4, n);
  }

  lemma ReconciledHops(path: Path, as4: Path, n: nat)
    requires Total(Front(path, n)) == n && Confeds(Front(path, n)) == 0
    requires n == Kept(path, as4)
    ensures Hops(Reconcile(path, as4)) == n + Hops(as4)
  {
    var joined := Front(path, n) + as4;
    CountsAppend(Front(path, n), as4);
    NormaliseCounts(joined);
  }

  // ---------- No AS number that detects a loop is lost ----------

  lemma AsnsAppend(p: Path, q: Path, x: U32)
    ensures x in Asns(p + q) <==> x in Asns(p) || x in Asns(q)
  {
    if x in Asns(p + q) { var s :| s in p + q && x in s.asns; }
    if x in Asns(p) { var s :| s in p && x in s.asns; assert s in p + q; }
    if x in Asns(q) { var s :| s in q && x in s.asns; assert s in p + q; }
  }

  /** A whole segment that the hops cover. */
  lemma FrontHead(s: Segment, p: Path, hops: nat)
    requires s.typ == AS_SET || (s.IsSequence() && s.asns != [])
    ensures Front([s] + p, Weight(s) + hops) == [s] + Front(p, hops)
  {
    assert ([s] + p)[1..] == p;
    assert s.asns[..|s.asns|] == s.asns;
  }

  lemma {:induction false} FrontWhole(p: Path)
    requires Plain(p) && NoEmptySequence(p)
    ensures Front(p, Hops(p)) == p
  {
    if p != [] {
      var h, t := p[0], p[1..];
      assert p == [h] + t && h in p;
      PlainHops(p);
      FrontWhole(t);
      FrontHead(h, t, Hops(t));
    }
  }

  /** Every AS number of AS4_PATH is in the result; and of AS_PATH too, when that is the shorter one. */
  lemma ReconcileAsns(path: Path, as4: Path, x: U32)
    ensures x in Asns(as4) ==> x in Asns(Reconcile(path, as4))
    ensures Plain(path) && NoEmptySequence(path) && Hops(as4) > Hops(path) && x in Asns(path)
      ==> x in Asns(Reconcile(path, as4))
  {
    var n := Kept(path, as4);
    AsnsAppend(Front(path, n), as4, x);
    NormaliseAsns(Front(path, n) + as4, x);
    if Plain(path) && NoEmptySequence(path) && Hops(as4) > Hops(path) {
      PlainCounts(path);
      FrontWhole(path);
    }
  }

  // ---------- Recovery ----------

  /** One segment put in front of a normal chain. */
  function Joined(s: Segment, n: Path): Path
  {
    if s.IsSequence() && n != [] && n[0].IsSequence() then [Segment(AS_SEQUENCE, s.asns + n[0].asns)] + n[1..]
    else [NormalSegment(s)] + n
  }

  lemma NormaliseJoins(s: Segment, p: Path)
    ensures Normalise([s] + p) == Joined(s, Normalise(p))
  {
    assert ([s] + p)[1..] == p;
  }

  /** With more behind, normalising in between does not matter. */
  lemma NormaliseStep(s: Segment, n: Path, p: Path)
    ensures Normalise(Joined(s, n) + p) == Normalise([s] + (n + p))
  {
    if s.IsSequence() && n != [] && n[0].IsSequence() {
      JoinedStep(s, n[0], n[1..], p);
      assert [n[0]] + n[1..] == n;
    } else {
      NormaliseNormalHead(s, n + p);
      Associate([NormalSegment(s)], n, p);
    }
  }

  lemma JoinedStep(s: Segment, h: Segment, n: Path, p: Path)
    requires s.IsSequence() && h.IsSequence()
    ensures Normalise([Segment(AS_SEQUENCE, s.asns + h.asns)] + n + p) == Normalise([s] + ([h] + n + p))
  {
    NormaliseMerge(s, h, n + p);
    assert [s, h] + (n + p) == [s] + ([h] + n + p);
    Associate([Segment(AS_SEQUENCE, s.asns + h.asns)], n, p);
  }

  lemma {:induction false} NormaliseAppend(f: Path, p: Path)
    ensures Normalise(Normalise(f) + p) == Normalise(f + p)
  {
    if f == [] {
      assert f + p == p && Normalise(f) + p == p;
    } else {
      var n := Normalise(f[1..]);
      NormaliseAppend(f[1..], p);
      NormaliseTail(f[0], n + p, f[1..] + p);
      NormaliseStep(f[0], n, p);
      NormaliseJoins(f[0], f[1..]);
      ConsAppend(f, p);
    }
  }

  lemma NormaliseNormalHead(s: Segment, p: Path)
    ensures Normalise([NormalSegment(s)] + p) == Normalise([s] + p)
  {
    assert ([NormalSegment(s)] + p)[1..] == p == ([s] + p)[1..];
    if s.IsSet() {
      MembersAscend(s.asns);
      MembersAscend(Members(s.asns));
      SameMembers(Members(Members(s.asns)), Members(s.asns));
    }
  }

  lemma {:induction false} NormaliseAppendRight(f: Path, p: Path, q: Path)
    requires Normalise(p) == Normalise(q)
    ensures Normalise(f + p) == Normalise(f + q)
  {
    if f == [] {
      assert f + p == p && f + q == q;
    } else {
      NormaliseAppendRight(f[1..], p, q);
      NormaliseTail(f[0], f[1..] + p, f[1..] + q);
      ConsAppend(f, p);
      ConsAppend(f, q);
    }
  }

  lemma FrontJoinedSequence(s: Segment, n: Path, hops: nat)
    requires s.IsSequence() && s.asns != [] && n != [] && n[0].IsSequence()
    ensures Front(Joined(s, n), |s.asns| + hops) == Joined(s, Front(n, hops))
  {
    assert Joined(s, n)[1..] == n[1..];
    var cut := Min(|n[0].asns|, hops);
    assert (s.asns + n[0].asns)[..|s.asns| + cut] == s.asns + n[0].asns[..cut];
    if hops == 0 { assert s.asns + n[0].asns[..0] == s.asns; }
  }

  /** Joining and cutting commute. */
  lemma FrontJoined(s: Segment, n: Path, hops: nat)
    requires Plain([s]) && NoEmptySequence([s])
    ensures Front(Joined(s, n), Weight(s) + hops) == Joined(s, Front(n, hops))
  {
    assert s in [s];
    if s.IsSequence() && n != [] && n[0].IsSequence() {
      FrontJoinedSequence(s, n, hops);
    } else {
      FrontUnjoined(s, n, hops);
    }
  }

  lemma FrontUnjoined(s: Segment, n: Path, hops: nat)
    requires s.typ == AS_SET || (s.IsSequence() && s.asns != [])
    requires !(s.IsSequence() && n != [] && n[0].IsSequence())
    ensures Front(Joined(s, n), Weight(s) + hops) == Joined(s, Front(n, hops))
  {
    assert Joined(s, n)[1..] == n;
    assert s.asns[..|s.asns|] == s.asns;
  }

  /** Cutting off as many hops as were prepended gives what was prepended, wherever segments were joined. */
  lemma {:induction false} FrontOfPrepended(f: Path, q: Path)
    requires Plain(f) && NoEmptySequence(f)
    ensures Front(Normalise(f + q), Hops(f)) == Normalise(f)
  {
    if f != [] {
      assert f[0] in f;
      FrontOfPrepended(f[1..], q);
      FrontStepOut(f[0], f[1..] + q, f[1..], Hops(f[1..]));
      ConsAppend(f, q);
      PlainHops(f);
    }
  }

  lemma FrontStepOut(s: Segment, a: Path, b: Path, hops: nat)
    requires Plain([s]) && NoEmptySequence([s]) && Front(Normalise(a), hops) == Normalise(b)
    ensures Front(Normalise([s] + a), Weight(s) + hops) == Normalise([s] + b)
  {
    FrontJoined(s, Normalise(a), hops);
    NormaliseJoins(s, a);
    NormaliseJoins(s, b);
  }

  /**
    AS4 recovery: whatever path `f` old speakers put in front of a path `p` whose large AS
    numbers had become AS_TRANS, reconciling with the AS4_PATH `p` gives `f` followed by `p`.
  */
  lemma As4Recovery(f: Path, p: Path)
    requires Plain(f) && NoEmptySequence(f) && Confeds(p) == 0 && Normal(p)
    ensures Reconcile(Normalise(f + TransPath(p, false)), p) == Normalise(f + p)
  {
    var q := TransPath(p, false);
    PlainCounts(f);
    CountsAppend(f, q);
    TransCounts(p, false);
    NormaliseCounts(f + q);
    if f == [] {
      assert f + p == p;
      NormalIsFixed(p);
    } else {
      FrontOfPrepended(f, q);
      NormaliseAppend(f, p);
      assert Kept(Normalise(f + q), p) == Hops(f);
    }
  }

  /** A list of AS numbers as a chain of segments. */
  function Prepended(k: seq<U32>): Path { if k == [] then [] else [Segment(AS_SEQUENCE, k)] }

  /**
    The same from octets to octets: `p` written by `aspath_put` for an old and for a new speaker,
    read with the lengths it returns, prepended to, reconciled.  The AS4_PATH arrives as it was
    exactly when no segment is too long for the wire, and then the path is recovered.
  */
  lemma As4RecoveryOverTheWire(k: seq<U32>, p: Path)
    requires Confeds(p) == 0 && Normal(p) && forall s <- p :: Sound(s)
    ensures var old2 := Parse(Written(p, false), Returned(p, false), false);
      var new4 := Parse(Written(p, true), Returned(p, true), true);
      && (new4 == Segments(p) <==> forall s <- p :: Writable(s))
      && (new4 == Segments(p) ==>
            (old2.Segments?
                && Reconcile(Normalise(Prepended(k) + old2.path), new4.path) == Normalise(Prepended(k) + p)))
  {
    PutRoundTrip32(p);
    if forall s <- p :: Writable(s) {
      WrittenReadBack(p, false);
      RecoveryFromRead(k, p);
    }
  }

  lemma RecoveryFromRead(k: seq<U32>, p: Path)
    requires Confeds(p) == 0 && Normal(p)
    ensures Reconcile(Normalise(Prepended(k) + Normalise(TransPath(p, false))), p) == Normalise(Prepended(k) + p)
  {
    var f, q := Prepended(k), TransPath(p, false);
    NormaliseIdempotent(q);
    NormaliseAppendRight(f, Normalise(q), q);
    assert k != [] ==> f[1..] == [];
    As4Recovery(f, p);
  }
}

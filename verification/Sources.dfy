/**
  The source table (quagga-srx/babeld/source.c): per (router-id, prefix, plen)
  the feasibility distance, the time of its last refresh and the number of
  routes that point to it.
*/
module Sources {
  import opened Octets
  import opened Distance

  const SOURCE_GC_TIME := 200

  datatype Destination = Destination(prefix: Prefix, plen: Byte)
  datatype SourceKey = SourceKey(id: RouterId, dest: Destination)
  datatype Source = Source(seqno: U16, metric: U16, routeCount: nat, time: int)
  {
    function Fd(): Dist { Dist(seqno, metric) }
  }
  type SourceTable = map<SourceKey, Source>

  /** `find_source` with `create` set. */
  function FindSource(t: SourceTable, key: SourceKey, seqno: U16, now: int): SourceTable
  {
    if key in t then t else t[key := Source(seqno, INFINITY, 0, now)]
  }

  /** `retain_source`. */
  function Retain(t: SourceTable, key: SourceKey): SourceTable
    requires key in t
  {
    t[key := t[key].(routeCount := t[key].routeCount + 1)]
  }

  /** `release_source`; the original asserts that the count is positive. */
  function Release(t: SourceTable, key: SourceKey): SourceTable
    requires key in t && t[key].routeCount > 0
  {
    t[key := t[key].(routeCount := t[key].routeCount - 1)]
  }

  /** `flush_source`: frees only a source that no route uses. */
  function FlushSource(t: SourceTable, key: SourceKey): SourceTable
    requires key in t
  {
    if t[key].routeCount > 0 then t else t - {key}
  }

  predicate Stale(src: Source, now: int)
  {
    src.time < now - SOURCE_GC_TIME
  }

  /** `update_source`. */
  function UpdateSource(src: Source, seqno: U16, metric: U16, now: int): Source
  {
    if metric >= INFINITY then src
    else if Stale(src, now) || SeqnoCompare(src.seqno, seqno) < 0 || (src.seqno == seqno && src.metric > metric) then
      src.(seqno := seqno, metric := metric, time := now)
    else
      src.(time := now)
  }

  /** `update_feasible` on a source that exists. */
  predicate UpdateFeasible(src: Source, seqno: U16, refmetric: U16, now: int)
  {
    || Stale(src, now)
    || refmetric >= INFINITY
    || SeqnoCompare(seqno, src.seqno) > 0
    || (src.seqno == seqno && refmetric < src.metric)
  }

  /**
    A finite pair refreshes the source, and replaces the stored one if that is older than 200 seconds, or
    its seqno is ahead by less than half the circle, or its metric is smaller at the same seqno.
  */
  lemma UpdateSourceWrites(src: Source, seqno: U16, metric: U16, now: int)
    ensures var s, ahead := UpdateSource(src, seqno, metric, now), (seqno - src.seqno) % 0x10000;
      if metric == 0xFFFF then s == src
      else
        && s.time == now && s.routeCount == src.routeCount
        && s.Fd() == if now - src.time > 200 || 0 < ahead < 0x8000 || (ahead == 0 && metric < src.metric)
                     then Dist(seqno, metric) else src.Fd()
  {
  }

  // ---------- What a source remembers over a whole run of updates ----------

  datatype Refresh = Refresh(d: Dist, now: int)

  /** The source after all the calls of `update_source` in `us`, first to last. */
  function Refreshed(src: Source, us: seq<Refresh>): Source
  {
    if us == [] then src
    else
      var u := us[|us| - 1];
      UpdateSource(Refreshed(src, us[..|us| - 1]), u.d.seqno, u.d.metric, u.now)
  }

  /** When the last finite pair was offered. */
  function LastHeard(src: Source, us: seq<Refresh>): int
  {
    if us == [] then src.time
    else
      var u := us[|us| - 1];
      if u.d.metric < INFINITY then u.now else LastHeard(src, us[..|us| - 1])
  }

  /** A source is kept fresh by finite pairs alone: it is stale 200 seconds after the last one. */
  lemma {:induction false} StaleAfterSilence(src: Source, us: seq<Refresh>, now: int)
    ensures Refreshed(src, us).time == LastHeard(src, us)
    ensures Stale(Refreshed(src, us), now) <==> now - LastHeard(src, us) > 200
  {
    if us != [] { StaleAfterSilence(src, us[..|us| - 1], now); }
  }

  /** No call finds the source stale, and its seqnos share one half circle. */
  ghost predicate LiveRun(base: U16, src: Source, us: seq<Refresh>)
  {
    && InWindow(base, src.seqno)
    && (forall i | 0 <= i < |us| :: us[i].d.metric < INFINITY ==> InWindow(base, us[i].d.seqno))
    && (forall i | 0 <= i < |us| :: !Stale(Refreshed(src, us[..i]), us[i].now))
  }

  ghost predicate Offered(d: Dist, src: Source, us: seq<Refresh>)
  {
    d == src.Fd() || (d.metric < INFINITY && exists i :: 0 <= i < |us| && us[i].d == d)
  }

  /** One call of `update_source` keeps the better of the old pair and the offered one. */
  lemma UpdateSourceBest(base: U16, src: Source, q: U16, metric: U16, now: int)
    requires !Stale(src, now) && InWindow(base, src.seqno) && (metric < INFINITY ==> InWindow(base, q))
    ensures var fd := UpdateSource(src, q, metric, now).Fd();
      && InWindow(base, fd.seqno)
      && NoWorse(fd, src.Fd())
      && (fd == src.Fd() || (fd == Dist(q, metric) && metric < INFINITY))
      && (metric < INFINITY ==> NoWorse(fd, Dist(q, metric)))
  {
    if metric < INFINITY {
      CompareIsIntegerOrder(base, src.seqno, q);
      CompareIsIntegerOrder(base, q, src.seqno);
    }
  }

  /** What was offered before is still offered, and the last finite pair is new. */
  lemma OfferedSnoc(d: Dist, src: Source, us: seq<Refresh>, n: nat)
    requires |us| == n + 1
    ensures Offered(d, src, us) <==> Offered(d, src, us[..n]) || (d.metric < INFINITY && us[n].d == d)
  {
    if i :| 0 <= i < |us| && us[i].d == d && i < n { assert us[..n][i].d == d; }
    if i :| 0 <= i < n && us[..n][i].d == d { assert us[i].d == d; }
  }

  lemma LiveRunPrefix(base: U16, src: Source, us: seq<Refresh>, n: nat)
    requires LiveRun(base, src, us) && |us| == n + 1
    ensures LiveRun(base, src, us[..n]) && !Stale(Refreshed(src, us[..n]), us[n].now)
  {
    forall i | 0 <= i < n ensures us[..n][..i] == us[..i] { }
  }

  /** The feasibility distance is the best pair ever offered, and was itself offered. */
  lemma {:induction false} FdIsBestEver(base: U16, src: Source, us: seq<Refresh>)
    requires LiveRun(base, src, us)
    ensures InWindow(base, Refreshed(src, us).seqno)
    ensures Offered(Refreshed(src, us).Fd(), src, us)
    ensures forall d | Offered(d, src, us) :: NoWorse(Refreshed(src, us).Fd(), d)
  {
    if us != [] {
      var n := |us| - 1;
      var u, mid, end := us[n], Refreshed(src, us[..n]), Refreshed(src, us);
      LiveRunPrefix(base, src, us, n);
      FdIsBestEver(base, src, us[..n]);
      UpdateSourceBest(base, mid, u.d.seqno, u.d.metric, u.now);
      OfferedSnoc(end.Fd(), src, us, n);
      forall d | Offered(d, src, us) ensures NoWorse(end.Fd(), d) {
        OfferedSnoc(d, src, us, n);
        if Offered(d, src, us[..n]) {
          OfferedInWindow(base, d, src, us[..n]);
          BetterTransitive(base, end.Fd(), mid.Fd(), d);
        }
      }
    }
  }

  lemma OfferedInWindow(base: U16, d: Dist, src: Source, us: seq<Refresh>)
    requires LiveRun(base, src, us) && Offered(d, src, us)
    ensures InWindow(base, d.seqno)
  {
  }

  /** A finite update is judged feasible exactly when it beats every pair ever offered. */
  lemma FeasibleBeatsHistory(base: U16, src: Source, us: seq<Refresh>, q: U16, m: U16, now: int)
    requires LiveRun(base, src, us) && InWindow(base, q) && m < INFINITY
    requires !Stale(Refreshed(src, us), now)
    ensures UpdateFeasible(Refreshed(src, us), q, m, now)
       <==> forall d | Offered(d, src, us) :: Better(Dist(q, m), d)
  {
    var end := Refreshed(src, us);
    FdIsBestEver(base, src, us);
    assert UpdateFeasible(end, q, m, now) <==> Better(Dist(q, m), end.Fd());
    if Better(Dist(q, m), end.Fd()) {
      forall d | Offered(d, src, us) ensures Better(Dist(q, m), d) {
        OfferedInWindow(base, d, src, us);
        BetterTransitive(base, Dist(q, m), end.Fd(), d);
      }
    }
  }
}

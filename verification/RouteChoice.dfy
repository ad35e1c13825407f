/**
  Which route quagga-srx/babeld/route.c prefers, and when it changes its mind: the
  decisions of consider_route, route_changed and route_lost in terms of metrics, times
  and feasibility distances.
*/
module RouteChoice {
  import opened Octets
  import opened Distance
  import opened Sources
  import opened RouteSlot

  // ---------- The terms ----------

  /** The metric of a route: reference metric, link cost and filter, up to infinity. */
  lemma MetricSum(r: Route)
    ensures r.Metric() <= 0xFFFF
    ensures r.Metric() < 0xFFFF ==> r.Metric() == r.refmetric + r.cost + r.addMetric
    ensures r.Metric() == 0xFFFF <==> (r.refmetric as int) + r.cost + r.addMetric >= 0xFFFF
  {
  }

  /** Without interference the link counts for a share of its cost, rounded, but for at least 1 in all. */
  lemma NoninterferingRounds(r: Route, factor: nat)
    ensures var m: int := r.MetricNoninterfering(factor);
      var share := m - r.refmetric - r.addMetric;
      && m <= 0xFFFF && (m < 0xFFFF ==> m > r.refmetric)
      && (m < 0xFFFF && m > r.refmetric + 1 ==> -128 <= factor * r.cost - 256 * share < 128)
  {
  }

  /** A share of 256 is the whole cost. */
  lemma NoninterferingWhole(r: Route)
    requires r.cost >= 1
    ensures r.MetricNoninterfering(256) == r.Metric()
  {
  }

  /** A route that has not been heard for longer than its hold time may not be used. */
  ghost predicate Alive(r: Route, now: int) { now - r.time <= r.holdTime }

  /** What is told is a retraction, or better than what is known of the source, or the source has been forgotten. */
  ghost predicate Acceptable(r: Route, sources: SourceTable, now: int)
  {
    r.src in sources &&
    (|| r.refmetric >= 0xFFFF
     || Better(Dist(r.seqno, r.refmetric), Dist(sources[r.src].seqno, sources[r.src].metric))
     || sources[r.src].time < now - 200)
  }

  lemma FeasibleIsAcceptable(r: Route, sources: SourceTable, now: int)
    requires r.src in sources
    ensures Feasible(r, sources, now) <==> Acceptable(r, sources, now)
    ensures Usable(r, sources, now) <==> Acceptable(r, sources, now) && Alive(r, now)
  {
  }

  /** Route `i` carries the traffic now. */
  ghost predicate InUse(l: Slot, r: Route) { l != [] && l[0] == r.(installed := true) }

  // ---------- consider_route ----------

  /** An installed route is left only for one that is better by 64, or for a finite one when it is infinite. */
  ghost predicate WorthIt(metric: int, installed: int)
  {
    metric < 0xFFFF && (installed >= 0xFFFF || installed - metric >= 64)
  }

  /**
    For every kernel answer, the route considered is in use afterwards exactly when it was already,
    or when it is acceptable, nothing has precedence, the kernel obeys, and there is no installed route
    or leaving it is worth it; otherwise nothing changes.
  */
  lemma ConsiderDecides(l: Slot, i: nat, sources: SourceTable, now: int, blocked: bool, k: Kernel)
    requires i < |l| && SlotOk(l) && SourcesKnown(l, sources)
    ensures var m := Consider(l, i, sources, now, blocked, k);
      && (InUse(m, l[i]) <==>
          || l[i].installed
          || (&& Acceptable(l[i], sources, now) && !blocked
              && (if HeadInstalled(l) then k == Done && WorthIt(l[i].Metric(), l[0].Metric()) else k != Failed)))
      && (!InUse(m, l[i]) ==> m == l)
  {
    FeasibleIsAcceptable(l[i], sources, now);
    if i > 0 { assert l[0].Key() != l[i].Key(); }
  }

  /** The installed route is never left for a worse one. */
  lemma ConsiderNeverWorse(l: Slot, i: nat, sources: SourceTable, now: int, blocked: bool, k: Kernel)
    requires i < |l| && SlotOk(l) && SourcesKnown(l, sources) && HeadInstalled(l)
    ensures var m := Consider(l, i, sources, now, blocked, k);
      && HeadInstalled(m) && m[0].Metric() <= l[0].Metric()
      && (m[0] != l[0] ==> WorthIt(m[0].Metric(), l[0].Metric()))
  {
    ConsiderDecides(l, i, sources, now, blocked, k);
  }

  /** The routes that are left keep their order. */
  lemma ConsiderKeepsOrder(l: Slot, i: nat, sources: SourceTable, now: int, blocked: bool, k: Kernel)
    requires i < |l| && SlotOk(l) && SourcesKnown(l, sources)
    ensures var m := Consider(l, i, sources, now, blocked, k);
      m == l || (m != [] && m[0] == l[i].(installed := true) && m[1..] == Strip(l[..i] + l[i + 1..]))
  {
    var m := Consider(l, i, sources, now, blocked, k);
    if m != l {
      assert m == Installed(l, i) by { assert !l[0].installed ==> SetInstalled(l, 0, false) == l; }
      InstalledOrder(l, i);
    }
  }

  lemma InstalledOrder(l: Slot, i: nat)
    requires i < |l| && OnlyHeadInstalled(l)
    ensures Installed(l, i) == [l[i].(installed := true)] + Strip(l[..i] + l[i + 1..])
  {
    var m, rest := SetInstalled(SetInstalled(l, 0, false), i, true), Strip(l[..i] + l[i + 1..]);
    assert m[..i] + m[i + 1..] == rest by {
      assert |rest| == |l| - 1;
      forall j | 0 <= j < |l| - 1 ensures (m[..i] + m[i + 1..])[j] == rest[j] { }
    }
  }

  // ---------- route_changed ----------

  /** The first of the usable routes with the smallest metric. */
  ghost predicate FirstBest(l: Slot, b: nat, sources: SourceTable, now: int)
  {
    && b < |l| && Acceptable(l[b], sources, now) && Alive(l[b], now)
    && forall j | 0 <= j < |l| && Acceptable(l[j], sources, now) && Alive(l[j], now) ::
      l[b].Metric() <= l[j].Metric() && (j < b ==> l[b].Metric() < l[j].Metric())
  }

  /** A route that beats the head is what `find_best_route` returns exactly when it is the first best one. */
  lemma BestIsFirstBest(l: Slot, b: nat, sources: SourceTable, now: int)
    requires b < |l| && SourcesKnown(l, sources) && l[b].Metric() < l[0].Metric()
    ensures Best(l, sources, now) == b <==> FirstBest(l, b, sources, now)
  {
    forall j | 0 <= j < |l| ensures Usable(l[j], sources, now) <==> Acceptable(l[j], sources, now) && Alive(l[j], now) {
      FeasibleIsAcceptable(l[j], sources, now);
    }
  }

  /**
    When the metric of the installed route has risen, another takes over exactly when it is the first
    best one, at least 96 better, nothing has precedence and the kernel obeys; otherwise, and when the
    metric has not risen, nothing changes.
  */
  lemma RouteChangedDecides(l: Slot, oldmetric: U16, sources: SourceTable, now: int, blocked: bool, k: Kernel, b: nat)
    requires SlotOk(l) && SourcesKnown(l, sources) && HeadInstalled(l) && 0 < b < |l|
    ensures var m := RouteChanged(l, 0, oldmetric, sources, now, blocked, k);
      && (InUse(m, l[b]) <==>
          && l[0].Metric() > oldmetric && FirstBest(l, b, sources, now) && l[0].Metric() - l[b].Metric() >= 96
          && !blocked && k == Done)
      && (InUse(m, l[0]) <==> m == l)
  {
    assert l[0].Key() != l[b].Key();
    var c := Best(l, sources, now);
    if c != 0 { assert l[0].Key() != l[c].Key(); }
    if c != b { assert l[c].Key() != l[b].Key(); }
    ConsiderDecides(l, c, sources, now, blocked, k);
    if l[b].Metric() < l[0].Metric() { BestIsFirstBest(l, b, sources, now); }
    if l[c].Metric() < l[0].Metric() { BestIsFirstBest(l, c, sources, now); }
  }

  /** A route that is not installed is considered when it changes. */
  lemma ChangedIsConsidered(l: Slot, i: nat, oldmetric: U16, sources: SourceTable, now: int, blocked: bool, k: Kernel)
    requires i < |l| && SlotOk(l) && SourcesKnown(l, sources) && !l[i].installed
    ensures var m := RouteChanged(l, i, oldmetric, sources, now, blocked, k);
      && (InUse(m, l[i]) <==>
          && Acceptable(l[i], sources, now) && !blocked
          && (if HeadInstalled(l) then k == Done && WorthIt(l[i].Metric(), l[0].Metric()) else k != Failed))
      && (!InUse(m, l[i]) ==> m == l)
  {
    ConsiderDecides(l, i, sources, now, blocked, k);
  }

  // ---------- route_lost ----------

  /** With nothing installed, the head is taken unless a usable route beats it, and then the first best one is. */
  lemma RouteLostDecides(l: Slot, sources: SourceTable, now: int, blocked: bool, k: Kernel, b: nat)
    requires SlotOk(l) && SourcesKnown(l, sources) && b < |l| && !HeadInstalled(l)
    ensures InUse(RouteLost(l, sources, now, blocked, k), l[b]) <==>
      && !blocked && k != Failed && Acceptable(l[b], sources, now)
      && (if b > 0 then FirstBest(l, b, sources, now) && l[b].Metric() < l[0].Metric()
          else forall j | 0 < j < |l| && Acceptable(l[j], sources, now) && Alive(l[j], now) ::
            l[0].Metric() <= l[j].Metric())
  {
    var c := Best(l, sources, now);
    if c != b { assert l[c].Key() != l[b].Key(); }
    ConsiderDecides(l, c, sources, now, blocked, k);
    if l[b].Metric() < l[0].Metric() { BestIsFirstBest(l, b, sources, now); }
    forall j | 0 <= j < |l| ensures Usable(l[j], sources, now) <==> Acceptable(l[j], sources, now) && Alive(l[j], now) {
      FeasibleIsAcceptable(l[j], sources, now);
    }
  }
}

/**
  Where the operations of quagga-srx/babeld/route.c fall short of what their comments
  promise: exact conditions, and an input for each.
*/
module RouteLimits {
  import opened Octets
  import opened Distance
  import opened Sources
  import opened RouteSlot
  import opened RouteUpdate
  import opened RouteAdoption

  // ---------- find_best_route ----------

  /** What the comment above `find_best_route` promises. */
  ghost predicate IsBest(l: Slot, b: nat, sources: SourceTable, now: int, q: Search)
    requires SourcesKnown(l, sources)
  {
    && b < |l| && Candidate(l[b], sources, now, q)
    && forall j | 0 <= j < |l| && Candidate(l[j], sources, now, q) :: l[b].Metric() <= l[j].Metric()
  }

  /** A candidate with a smaller metric than the head. */
  ghost predicate BeatsHead(l: Slot, j: nat, sources: SourceTable, now: int, q: Search)
    requires SourcesKnown(l, sources)
  {
    j < |l| && Candidate(l[j], sources, now, q) && l[j].Metric() < l[0].Metric()
  }

  /** The promise is kept exactly when the head is a candidate itself or a candidate beats it. */
  lemma BestForIsBest(l: Slot, sources: SourceTable, now: int, q: Search)
    requires l != [] && SourcesKnown(l, sources)
    ensures IsBest(l, BestFor(l, sources, now, q), sources, now, q)
       <==> Candidate(l[0], sources, now, q) || exists j :: BeatsHead(l, j, sources, now, q)
  {
    var b := BestFor(l, sources, now, q);
    if b != 0 { assert BeatsHead(l, b, sources, now, q); }
  }

  // ---------- route_lost ----------

  /** With no route installed, `route_lost` installs one exactly then. */
  lemma RouteLostInstalls(l: Slot, sources: SourceTable, now: int, blocked: bool, k: Kernel)
    requires SourcesKnown(l, sources) && forall r <- l :: !r.installed
    ensures HeadInstalled(RouteLost(l, sources, now, blocked, k))
       <==> && l != [] && !blocked && k != Failed
            && (Feasible(l[0], sources, now) || exists j :: BeatsHead(l, j, sources, now, FEASIBLE))
    ensures !HeadInstalled(RouteLost(l, sources, now, blocked, k)) ==> RouteLost(l, sources, now, blocked, k) == l
  {
    if l != [] {
      var b := Best(l, sources, now);
      if b != 0 { assert BeatsHead(l, b, sources, now, FEASIBLE); }
    }
  }

  /** A route that could carry traffic. */
  ghost predicate Offers(l: Slot, j: nat, sources: SourceTable, now: int)
    requires SourcesKnown(l, sources)
  {
    j < |l| && Usable(l[j], sources, now) && l[j].Metric() < INFINITY
  }

  /**
    Nothing is installed although a usable route is there, exactly when the head is
    unfeasible and no usable route has a smaller metric than the head.
  */
  lemma RouteLostStrands(l: Slot, sources: SourceTable, now: int, k: Kernel)
    requires l != [] && SourcesKnown(l, sources) && k != Failed && forall r <- l :: !r.installed
    requires exists j :: Offers(l, j, sources, now)
    ensures RouteLost(l, sources, now, false, k) == l
       <==> !Feasible(l[0], sources, now)
            && forall j | 0 <= j < |l| && Usable(l[j], sources, now) :: l[0].Metric() <= l[j].Metric()
  {
    RouteLostInstalls(l, sources, now, false, k);
    if forall j | 0 <= j < |l| && Usable(l[j], sources, now) :: l[0].Metric() <= l[j].Metric() {
      assert forall j :: !BeatsHead(l, j, sources, now, FEASIBLE);
    } else {
      var j :| 0 <= j < |l| && Usable(l[j], sources, now) && l[j].Metric() < l[0].Metric();
      assert BeatsHead(l, j, sources, now, FEASIBLE);
    }
  }

  const HERE: Prefix := [0, 0, 0, 0, 0, 0, 0, 0, 0, 0, 0, 0, 0, 0, 0, 0]
  const DEST := Destination(HERE, 0)
  const ME: RouterId := [0, 0, 0, 0, 0, 0, 0, 1]
  const P: RouterId := [0, 0, 0, 0, 0, 0, 0, 2]
  const Q: RouterId := [0, 0, 0, 0, 0, 0, 0, 3]
  const BYP := SourceKey(P, DEST)
  const BYQ := SourceKey(Q, DEST)

  function Through(key: SourceKey, neigh: RouterId, seqno: U16, refmetric: U16, installed: bool): Route
  {
    Route(key, refmetric, 1, 0, seqno, neigh, HERE, 0, 15, installed)
  }

  function Answers(k: Kernel, inserts: bool): Env
  {
    Env(ME, 0, 1, 0, false, false, false, true, inserts, k, Done, Done)
  }

  /** Such a list: an unfeasible route of metric 11 hides a usable one of metric 21. */
  lemma Strands()
    ensures var l, sources := [Through(BYP, P, 0, 10, false), Through(BYQ, Q, 0, 20, false)],
                              map[BYP := Source(0, 10, 1, 0), BYQ := Source(0, 30, 1, 0)];
      && SourcesKnown(l, sources) && !Feasible(l[0], sources, 0) && Offers(l, 1, sources, 0)
      && RouteLost(l, sources, 0, false, Done) == l
  {
    var l, sources := [Through(BYP, P, 0, 10, false), Through(BYQ, Q, 0, 20, false)],
                      map[BYP := Source(0, 10, 1, 0), BYQ := Source(0, 30, 1, 0)];
    assert SourcesKnown(l, sources);
    assert Offers(l, 1, sources, 0);
    RouteLostStrands(l, sources, 0, Done);
  }

  // ---------- update_route ----------

  /** An update that meets the failing insertion; the source stays counted for ever. */
  lemma LeaksHere()
    ensures var st, u, env := Local(map[], []), Update(BYP, 0, 10, 400, P, HERE), Answers(Done, false);
      && LocalOk(st, DEST) && Leaks(st, u, env) && !LocalOk(UpdateRoute(st, u, env), DEST)
      && UpdateRoute(st, u, env) == Local(map[BYP := Source(0, INFINITY, 1, 0)], [])
  {
    UpdateRouteOk(Local(map[], []), Update(BYP, 0, 10, 400, P, HERE), Answers(Done, false));
  }

  lemma OneRouteOk(key: SourceKey, r: Route, seqno: U16, metric: U16)
    requires key.dest == DEST && r.src == key
    ensures LocalOk(Local(map[key := Source(seqno, metric, 1, 0)], [r]), DEST)
  {
    assert CountSrc([r], key) == 1;
  }

  /** A retraction with a newer seqno, refused by the kernel: the route claims (1, 10), which nobody told. */
  lemma MixesHere()
    ensures var st, u, env := Local(map[BYP := Source(0, 20, 1, 0)], [Through(BYP, P, 0, 10, true)]),
                              Update(BYP, 1, INFINITY, 400, P, HERE), Answers(Failed, true);
      && LocalOk(st, DEST) && Mixes(st, u, env) && |UpdateRoute(st, u, env).slot| == 1
      && UpdateRoute(st, u, env).slot[0].installed && UpdateRoute(st, u, env).slot[0].Told() == Dist(1, 10)
  {
    var r := Through(BYP, P, 0, 10, true);
    OneRouteOk(BYP, r, 0, 20);
    var st, u, env := Local(map[BYP := Source(0, 20, 1, 0)], [r]), Update(BYP, 1, INFINITY, 400, P, HERE),
        Answers(Failed, true);
    assert Find(st.slot, P, HERE) == 0;
    assert Meets(st, u, env, 0, true) && Mixed(r, u, true, env);
    StaysStored(st, u, env, true);
  }

  /** A retraction for another source, refused by the kernel: (0, 10) is unfeasible for that source. */
  lemma MislabelsHere()
    ensures var sources := map[BYP := Source(0, 20, 1, 0), BYQ := Source(0, 5, 0, 0)];
      var st, u := Local(sources, [Through(BYP, P, 0, 10, true)]), Update(BYQ, 0, INFINITY, 400, P, HERE);
      var env := Answers(Failed, true);
      LocalOk(st, DEST) && Mislabels(st, u, env) && !Adopts(st, UpdateRoute(st, u, env), 0)
  {
    var r := Through(BYP, P, 0, 10, true);
    var st, u, env := Local(map[BYP := Source(0, 20, 1, 0), BYQ := Source(0, 5, 0, 0)], [r]),
                      Update(BYQ, 0, INFINITY, 400, P, HERE), Answers(Failed, true);
    assert CountSrc([r], BYP) == 1 && CountSrc([r], BYQ) == 0;
    assert LocalOk(st, DEST);
    assert Find(st.slot, P, HERE) == 0;
    UpdateRouteAdopts(st, u, env);
  }

  /** An expired route that the kernel will not retract: it claims (1, 10) from now on. */
  lemma RenumbersHere()
    ensures var st, env := Local(map[BYP := Source(0, 20, 1, 0)], [Through(BYP, P, 0, 10, true)]),
                           Answers(Failed, true).(now := 20);
      && LocalOk(st, DEST) && RenumbersExpired(st, 0, env)
      && UpdateRouteMetric(st, 0, env).slot == [Through(BYP, P, 1, 10, true)]
  {
    OneRouteOk(BYP, Through(BYP, P, 0, 10, true), 0, 20);
  }
}

/**
  What one operation of one router may do to its routes and its feasibility
  distances, in the terms the network argument needs: where every stored route
  comes from, and that nothing infeasible is newly adopted for forwarding.
*/
module RouteAdoption {
  import opened Octets
  import opened Distance
  import opened Sources
  import opened RouteSlot
  import opened RouteUpdate

  /** Known sources keep their distance and their time. */
  ghost predicate FdsKept(t: SourceTable, t': SourceTable)
  {
    forall key | key in t :: key in t' && t'[key].Fd() == t[key].Fd()
  }

  /** `r'` repeats, or retracts, a route that was there before. */
  ghost predicate Inherited(r': Route, slot: Slot)
  {
    exists r <- slot :: r'.src == r.src && r'.neigh == r.neigh && (r'.refmetric >= INFINITY || r'.Told() == r.Told())
  }

  predicate ToldBy(r': Route, u: Update)
  {
    r'.src == u.key && r'.neigh == u.neigh && r'.Told() == Dist(u.seqno, u.refmetric)
  }

  /**
    Whatever is installed and not retracted after the operation was so before, through
    the same neighbour for the same source, or is feasible now.
  */
  ghost predicate Adopts(st: Local, st': Local, now: int)
  {
    HeadInstalled(st'.slot) && st'.slot[0].refmetric < INFINITY ==>
      || (st'.slot[0].src in st'.sources && Feasible(st'.slot[0], st'.sources, now))
      || (&& HeadInstalled(st.slot) && st.slot[0].refmetric < INFINITY
          && st.slot[0].src == st'.slot[0].src && st.slot[0].neigh == st'.slot[0].neigh)
  }

  /** What the network needs to know about one operation of one router, told by `us`. */
  ghost predicate LocalStep(st: Local, st': Local, now: int, us: set<Update>)
  {
    && FdsKept(st.sources, st'.sources)
    && (forall r' <- st'.slot :: r'.cost >= 1 && (Inherited(r', st.slot) || exists u <- us :: ToldBy(r', u)))
    && Adopts(st, st', now)
  }

  /** `update_route` writes the source and the seqno of an update, but not its metric. */
  predicate StuckAt(r: Route, u: Update, feasible: bool, env: Env)
  {
    !Lost(r, u, feasible) && Stuck(r, u.refmetric, env.cost, env.add, env.kMetric)
  }

  /** ... so that the route claims a distance which neither the update nor the route before had. */
  predicate Mixed(r: Route, u: Update, feasible: bool, env: Env)
  {
    && StuckAt(r, u, feasible, env) && r.refmetric != u.refmetric
    && (r.src != u.key || (r.refmetric < INFINITY && r.seqno != u.seqno))
  }

  /** The stored route that an update is about, and whether the update is feasible. */
  predicate Meets(st: Local, u: Update, env: Env, i: nat, feasible: bool)
    requires LocalOk(st, u.key.dest)
  {
    && !Ignored(u, env) && i == Find(st.slot, u.neigh, u.nexthop) && i < |st.slot|
    && feasible == FeasibleUpdate(SourcesFor(st, u, env.now), u, env.now)
  }

  /**
    The branch of `update_route` that its comment rules out and its code does not:
    an unfeasible finite update revives the retracted route that is still installed.
  */
  predicate Resurrects(st: Local, u: Update, env: Env)
    requires LocalOk(st, u.key.dest)
  {
    var i := Find(st.slot, u.neigh, u.nexthop);
    && Meets(st, u, env, i, false)
    && st.slot[i].installed && st.slot[i].refmetric >= INFINITY && st.slot[i].src == u.key && u.refmetric < INFINITY
    && !StuckAt(st.slot[i], u, false, env)
  }

  /** A failing change of metric leaves a distance that nobody has told. */
  predicate Mixes(st: Local, u: Update, env: Env)
    requires LocalOk(st, u.key.dest)
  {
    var i := Find(st.slot, u.neigh, u.nexthop);
    exists feasible :: Meets(st, u, env, i, feasible) && Mixed(st.slot[i], u, feasible, env)
  }

  /** ... and one that is unfeasible for the source which the route now has. */
  predicate Mislabels(st: Local, u: Update, env: Env)
    requires LocalOk(st, u.key.dest)
  {
    var i := Find(st.slot, u.neigh, u.nexthop);
    && Meets(st, u, env, i, true) && StuckAt(st.slot[i], u, true, env)
    && st.slot[i].refmetric < INFINITY && st.slot[i].src != u.key
    && !UpdateFeasible(SourcesFor(st, u, env.now)[u.key], u.seqno, st.slot[i].refmetric, env.now)
  }

  ghost predicate Costed(slot: Slot) { forall r <- slot :: r.cost >= 1 }

  /** Provenance of all routes of a slot, before selection. */
  ghost predicate Told(st: Local, slot: Slot, us: set<Update>)
  {
    forall r' <- slot :: r'.cost >= 1 && (Inherited(r', st.slot) || exists u <- us :: ToldBy(r', u))
  }

  lemma CostedTold(st: Local)
    requires Costed(st.slot)
    ensures Told(st, st.slot, {})
  {
    forall r' <- st.slot ensures Inherited(r', st.slot) { }
  }

  /** Route selection after any change preserves provenance and adoption. */
  lemma SelectKeepsTold(st: Local, mid: Slot, end: Slot, us: set<Update>)
    requires SameRoutes(mid, end) && Told(st, mid, us)
    ensures Told(st, end, us)
  {
    forall r' <- end ensures r'.cost >= 1 && (Inherited(r', st.slot) || exists u <- us :: ToldBy(r', u)) {
      var s := SameRoutesMember(mid, end, r');
      if Inherited(s, st.slot) {
        var r :| r in st.slot && s.src == r.src && s.neigh == r.neigh
            && (s.refmetric >= INFINITY || s.Told() == r.Told());
        assert r'.Told() == s.Told();
        assert Inherited(r', st.slot);
      } else {
        var u :| u in us && ToldBy(s, u);
        assert ToldBy(r', u);
      }
    }
  }

  lemma SelectKeepsAdopts(st: Local, mid: Slot, sources: SourceTable, end: Slot, now: int)
    requires Reselected(mid, end, sources, now) && Adopts(st, Local(sources, mid), now)
    ensures Adopts(st, Local(sources, end), now)
  {
  }

  /** Only the distance and time of a source matter to feasibility. */
  lemma AdoptsRecounted(st: Local, slot: Slot, t: SourceTable, t': SourceTable, now: int)
    requires Adopts(st, Local(t, slot), now)
    requires forall key | key in t :: key in t' && t'[key].Fd() == t[key].Fd() && t'[key].time == t[key].time
    ensures Adopts(st, Local(t', slot), now)
  {
  }

  // ---------- update_route ----------

  lemma StoredTold(st: Local, i: nat, u: Update, feasible: bool, env: Env)
    requires i < |st.slot| && Costed(st.slot) && env.cost >= 1 && !Mixed(st.slot[i], u, feasible, env)
    requires st.slot[i].Matches(u.neigh, u.nexthop)
    ensures Told(st, Stored(st.slot, i, u, feasible, env), {u})
  {
    var stored := Stored(st.slot, i, u, feasible, env);
    forall r' <- stored ensures r'.cost >= 1 && (Inherited(r', st.slot) || exists v <- {u} :: ToldBy(r', v)) {
      var j :| 0 <= j < |stored| && stored[j] == r';
      if j != i {
        assert r' == st.slot[j] && Inherited(r', st.slot);
      } else if StuckAt(st.slot[i], u, feasible, env) && st.slot[i].refmetric != u.refmetric {
        assert st.slot[i] in st.slot && Inherited(r', st.slot);
      } else {
        assert u in {u} && ToldBy(r', u);
      }
    }
  }

  lemma StoredAdopts(st: Local, i: nat, u: Update, env: Env, t: SourceTable)
    requires i < |st.slot| && SlotOk(st.slot) && SourcesKnown(st.slot, t) && u.key in t
    ensures var r, feasible := st.slot[i], FeasibleUpdate(t, u, env.now);
      || Adopts(st, Local(t, Stored(st.slot, i, u, feasible, env)), env.now)
      || (&& r.installed && r.refmetric >= INFINITY && r.src == u.key && u.refmetric < INFINITY && !feasible
          && !StuckAt(r, u, feasible, env))
      || (&& feasible && StuckAt(r, u, feasible, env) && r.refmetric < INFINITY && r.src != u.key
          && !UpdateFeasible(t[u.key], u.seqno, r.refmetric, env.now))
  {
    var feasible := FeasibleUpdate(t, u, env.now);
    var stored := Stored(st.slot, i, u, feasible, env);
    if i == 0 {
      assert stored[0].src == u.key && stored[0].seqno == u.seqno;
      assert stored[0].refmetric == if StuckAt(st.slot[0], u, feasible, env) then st.slot[0].refmetric else u.refmetric;
    } else {
      assert stored[0] == st.slot[0];
    }
  }

  ghost predicate ExistingCase(st: Local, i: nat, u: Update, feasible: bool, env: Env)
  {
    && LocalOk(st, u.key.dest) && u.key in st.sources && i < |st.slot| && st.slot[i].Matches(u.neigh, u.nexthop)
    && st.sources[st.slot[i].src].routeCount > 0 && feasible == FeasibleUpdate(st.sources, u, env.now)
  }

  /** The branch of `update_route` for a stored route, entered with the sources looked up. */
  lemma UpdateExistingTold(st: Local, i: nat, u: Update, feasible: bool, env: Env, st0: Local)
    requires ExistingCase(st, i, u, feasible, env) && st.slot == st0.slot && Costed(st.slot) && env.cost >= 1
    requires !Mixed(st.slot[i], u, feasible, env)
    ensures Told(st0, UpdateExisting(st, i, u, env).slot, {u})
  {
    var stored, end := Stored(st.slot, i, u, feasible, env), UpdateExisting(st, i, u, env);
    assert SameRoutes(stored, end.slot) by { UpdateExistingReselects(st, i, u, env); }
    StoredTold(st0, i, u, feasible, env);
    SelectKeepsTold(st0, stored, end.slot, {u});
  }

  lemma UpdateExistingAdopts(st: Local, i: nat, u: Update, feasible: bool, env: Env, st0: Local)
    requires ExistingCase(st, i, u, feasible, env)
    requires Adopts(st0, Local(st.sources, Stored(st.slot, i, u, feasible, env)), env.now)
    ensures Adopts(st0, UpdateExisting(st, i, u, env), env.now)
  {
    var stored, end, retained := Stored(st.slot, i, u, feasible, env), UpdateExisting(st, i, u, env),
        Retain(st.sources, u.key);
    assert Reselected(stored, end.slot, retained, env.now) by { UpdateExistingReselects(st, i, u, env); }
    assert Adopts(st0, Local(retained, stored), env.now) by {
      AdoptsRecounted(st0, stored, st.sources, retained, env.now);
    }
    SelectKeepsAdopts(st0, stored, retained, end.slot, env.now);
    ReleasedAdopts(st0, end, retained, st.slot[i].src, env.now);
  }

  lemma ReleasedAdopts(st0: Local, end: Local, retained: SourceTable, key: SourceKey, now: int)
    requires key in retained && retained[key].routeCount > 0 && end.sources == Release(retained, key)
    requires Adopts(st0, Local(retained, end.slot), now)
    ensures Adopts(st0, end, now)
  {
    AdoptsRecounted(st0, end.slot, retained, end.sources, now);
  }

  /** Nothing reselects away from the route: its metric did not go up. */
  lemma StaysStored(st: Local, u: Update, env: Env, feasible: bool)
    requires LocalOk(st, u.key.dest) && Meets(st, u, env, 0, feasible) && st.slot[0].installed
    requires !Lost(st.slot[0], u, feasible)
    requires st.slot[0].refmetric >= INFINITY || StuckAt(st.slot[0], u, feasible, env)
    ensures UpdateRoute(st, u, env).slot == Stored(st.slot, 0, u, feasible, env)
    ensures u.key in UpdateRoute(st, u, env).sources
    ensures var s, s' := SourcesFor(st, u, env.now)[u.key], UpdateRoute(st, u, env).sources[u.key];
      s'.Fd() == s.Fd() && s'.time == s.time
  {
    CountSrcPositive(st.slot, 0);
  }

  lemma ResurrectedStays(st: Local, u: Update, env: Env)
    requires LocalOk(st, u.key.dest) && (Resurrects(st, u, env) || Mislabels(st, u, env))
    ensures !Adopts(st, UpdateRoute(st, u, env), env.now)
  {
    var feasible := FeasibleUpdate(SourcesFor(st, u, env.now), u, env.now);
    assert Find(st.slot, u.neigh, u.nexthop) == 0;
    StaysStored(st, u, env, feasible);
    var end := UpdateRoute(st, u, env);
    assert end.slot[0].src == u.key && end.slot[0].seqno == u.seqno;
  }

  lemma AppendTold(st: Local, u: Update, env: Env)
    requires Costed(st.slot) && env.cost >= 1
    ensures Told(st, st.slot + [NewRoute(u, env)], {u})
  {
    forall r' <- st.slot + [NewRoute(u, env)]
      ensures r'.cost >= 1 && (Inherited(r', st.slot) || exists v <- {u} :: ToldBy(r', v))
    {
      if r' in st.slot {
        assert Inherited(r', st.slot);
      } else {
        assert u in {u} && ToldBy(r', u);
      }
    }
  }

  ghost predicate NewCase(st: Local, u: Update)
  {
    LocalOk(st, u.key.dest) && u.key in st.sources && Find(st.slot, u.neigh, u.nexthop) == |st.slot|
  }

  lemma UpdateNewTold(st: Local, u: Update, env: Env, st0: Local)
    requires NewCase(st, u) && st.slot == st0.slot && Costed(st.slot) && env.cost >= 1
    ensures Told(st0, UpdateNew(st, u, env).slot, {u})
  {
    var slot, end := st.slot + [NewRoute(u, env)], UpdateNew(st, u, env);
    CostedTold(st0);
    if end.slot != st.slot {
      AppendLocal(st, u, env);
      ConsiderReselects(slot, |st.slot|, Retain(st.sources, u.key), env.now, env.blocked, env.kChanged);
      AppendTold(st0, u, env);
      SelectKeepsTold(st0, slot, end.slot, {u});
    }
  }

  lemma UpdateNewAdopts(st: Local, u: Update, env: Env, st0: Local)
    requires NewCase(st, u) && st.slot == st0.slot
    ensures Adopts(st0, UpdateNew(st, u, env), env.now)
  {
    var slot, retained, end := st.slot + [NewRoute(u, env)], Retain(st.sources, u.key), UpdateNew(st, u, env);
    if end.slot != st.slot {
      AppendLocal(st, u, env);
      ConsiderReselects(slot, |st.slot|, retained, env.now, env.blocked, env.kChanged);
      SelectKeepsAdopts(st0, slot, retained, end.slot, env.now);
    }
  }

  lemma CountsKeepFds(t: SourceTable, x: SourceKey, y: SourceKey)
    requires x in t && y in t
    ensures FdsKept(t, Retain(t, x)) && (Retain(t, x)[y].routeCount > 0 ==> FdsKept(t, Release(Retain(t, x), y)))
  {
  }

  lemma UpdateRouteFdsKept(st: Local, u: Update, env: Env)
    requires LocalOk(st, u.key.dest)
    ensures FdsKept(st.sources, UpdateRoute(st, u, env).sources)
  {
    var i, t := Find(st.slot, u.neigh, u.nexthop), SourcesFor(st, u, env.now);
    assert FdsKept(st.sources, t);
    if i < |st.slot| {
      CountSrcPositive(st.slot, i);
      CountsKeepFds(t, u.key, st.slot[i].src);
    } else {
      CountsKeepFds(t, u.key, u.key);
    }
  }

  lemma UpdateRouteTold(st: Local, u: Update, env: Env)
    requires LocalOk(st, u.key.dest) && Costed(st.slot) && env.cost >= 1 && !Ignored(u, env) && !Mixes(st, u, env)
    ensures Told(st, UpdateRoute(st, u, env).slot, {u})
  {
    var st1 := Local(SourcesFor(st, u, env.now), st.slot);
    var i := Find(st.slot, u.neigh, u.nexthop);
    if i < |st.slot| {
      CountSrcPositive(st.slot, i);
      var feasible := FeasibleUpdate(st1.sources, u, env.now);
      assert Meets(st, u, env, i, feasible);
      UpdateExistingTold(st1, i, u, feasible, env, st);
    } else {
      UpdateNewTold(st1, u, env, st);
    }
  }

  /**
    For every answer of the kernel, `update_route` adopts nothing infeasible for forwarding,
    exactly when it does not revive a retracted installed route with an unfeasible update,
    and no failing change of metric leaves an infeasible distance under a new source.
  */
  lemma UpdateRouteAdopts(st: Local, u: Update, env: Env)
    requires LocalOk(st, u.key.dest)
    ensures Adopts(st, UpdateRoute(st, u, env), env.now) <==> !Resurrects(st, u, env) && !Mislabels(st, u, env)
  {
    if Resurrects(st, u, env) || Mislabels(st, u, env) {
      ResurrectedStays(st, u, env);
    } else if !Ignored(u, env) {
      var st1 := Local(SourcesFor(st, u, env.now), st.slot);
      var i := Find(st.slot, u.neigh, u.nexthop);
      if i < |st.slot| {
        CountSrcPositive(st.slot, i);
        StoredAdopts(st, i, u, env, st1.sources);
        UpdateExistingAdopts(st1, i, u, FeasibleUpdate(st1.sources, u, env.now), env, st);
      } else {
        UpdateNewAdopts(st1, u, env, st);
      }
    }
  }

  /** What leaves an infeasible distance under a new source mixes distances. */
  lemma MislabelsMixes(st: Local, u: Update, env: Env)
    requires LocalOk(st, u.key.dest) && Mislabels(st, u, env)
    ensures Mixes(st, u, env)
  {
    var i := Find(st.slot, u.neigh, u.nexthop);
    assert Meets(st, u, env, i, true) && Mixed(st.slot[i], u, true, env);
  }

  lemma UpdateRouteStep(st: Local, u: Update, env: Env)
    requires LocalOk(st, u.key.dest) && Costed(st.slot) && env.cost >= 1
    requires !Resurrects(st, u, env) && !Mixes(st, u, env)
    ensures LocalStep(st, UpdateRoute(st, u, env), env.now, if u.key.id == env.myid then {} else {u})
  {
    CostedTold(st);
    UpdateRouteFdsKept(st, u, env);
    if Mislabels(st, u, env) { MislabelsMixes(st, u, env); }
    UpdateRouteAdopts(st, u, env);
    if !Ignored(u, env) { UpdateRouteTold(st, u, env); }
  }

  // ---------- flush_route, update_route_metric, retract_route ----------

  lemma FlushRouteStep(st: Local, i: nat, env: Env, dest: Destination)
    requires LocalOk(st, dest) && i < |st.slot| && Costed(st.slot) && st.sources[st.slot[i].src].routeCount > 0
    ensures LocalStep(st, FlushRoute(st, i, env), env.now, {})
  {
    RemoveLocal(st, i, dest);
    var rest, end := st.slot[..i] + st.slot[i + 1..], FlushRoute(st, i, env);
    forall r' <- rest ensures Inherited(r', st.slot) { assert r' in st.slot; }
    if st.slot[i].installed {
      RouteLostReselects(rest, st.sources, env.now, env.blocked, env.kLost);
      SelectKeepsTold(st, rest, end.slot, {});
      SelectKeepsAdopts(st, rest, st.sources, end.slot, env.now);
      AdoptsRecounted(st, end.slot, st.sources, end.sources, env.now);
    }
  }

  ghost predicate Rewrites(st: Local, i: nat, r: Route, dest: Destination)
  {
    && LocalOk(st, dest) && i < |st.slot| && Costed(st.slot)
    && r.src == st.slot[i].src && r.Key() == st.slot[i].Key() && r.installed == st.slot[i].installed
    && r.cost >= 1 && (r.refmetric >= INFINITY || r.Told() == st.slot[i].Told())
  }

  lemma RewriteTold(st: Local, i: nat, r: Route, dest: Destination)
    requires Rewrites(st, i, r, dest)
    ensures Told(st, st.slot[i := r], {})
  {
    var mid := st.slot[i := r];
    forall r' <- mid ensures r'.cost >= 1 && Inherited(r', st.slot) {
      var j :| 0 <= j < |mid| && mid[j] == r';
      if j == i {
        assert st.slot[i] in st.slot;
      } else {
        assert r' in st.slot;
      }
    }
  }

  lemma RewriteStep(st: Local, i: nat, r: Route, oldmetric: U16, env: Env, dest: Destination)
    requires Rewrites(st, i, r, dest)
    ensures LocalStep(st, st.(slot := st.slot[i := r]), env.now, {})
    ensures SourcesKnown(st.slot[i := r], st.sources)
    ensures var end := RouteChanged(st.slot[i := r], i, oldmetric, st.sources, env.now, env.blocked, env.kChanged);
      LocalStep(st, st.(slot := end), env.now, {})
  {
    var mid := st.slot[i := r];
    assert SlotOk(mid) && SourcesKnown(mid, st.sources) by { RewriteLocal(st, i, r, dest); }
    RewriteTold(st, i, r, dest);
    RouteChangedReselects(mid, i, oldmetric, st.sources, env.now, env.blocked, env.kChanged);
    var end := RouteChanged(mid, i, oldmetric, st.sources, env.now, env.blocked, env.kChanged);
    SelectKeepsTold(st, mid, end, {});
    SelectKeepsAdopts(st, mid, st.sources, end, env.now);
  }

  /** A retraction that the kernel refuses leaves a finite route, with the new seqno. */
  predicate Renumbers(r: Route, seqno: U16, k: Kernel)
  {
    r.refmetric < INFINITY && r.seqno != seqno && Stuck(r, INFINITY, INFINITY, 0, k)
  }

  lemma RetractRouteStep(st: Local, i: nat, seqno: U16, env: Env, dest: Destination)
    requires LocalOk(st, dest) && i < |st.slot| && Costed(st.slot) && !Renumbers(st.slot[i], seqno, env.kMetric)
    ensures LocalStep(st, RetractRoute(st, i, seqno, env), env.now, {})
  {
    CostedTold(st);
    var r := st.slot[i];
    RewriteStep(st, i, ChangeMetric(r.(seqno := seqno), INFINITY, INFINITY, 0, env.kMetric), r.Metric(), env, dest);
  }

  /** `update_route_metric` renumbers a route only when it expires. */
  predicate RenumbersExpired(st: Local, i: nat, env: Env)
    requires i < |st.slot| && SourcesKnown(st.slot, st.sources)
  {
    var r := st.slot[i];
    r.Expired(env.now) && Renumbers(r, SeqnoPlus(st.sources[r.src].seqno, 1), env.kMetric)
  }

  lemma UpdateRouteMetricStep(st: Local, i: nat, env: Env, dest: Destination)
    requires LocalOk(st, dest) && i < |st.slot| && Costed(st.slot) && env.cost >= 1 && !RenumbersExpired(st, i, env)
    ensures LocalStep(st, UpdateRouteMetric(st, i, env), env.now, {})
  {
    var r := st.slot[i];
    if r.Expired(env.now) {
      RetractRouteStep(st, i, SeqnoPlus(st.sources[r.src].seqno, 1), env, dest);
    } else {
      RewriteStep(st, i, ChangeMetric(r, r.refmetric, env.cost, env.add, env.kMetric), r.Metric(), env, dest);
    }
  }
}

/**
  What the operations of quagga-srx/babeld/route.c write, field by field, and which route is
  in use when they return: update_route, retract_route, update_route_metric, flush_route.
*/
module RouteFields {
  import opened Octets
  import opened Distance
  import opened Sources
  import opened RouteSlot
  import opened RouteChoice
  import opened RouteUpdate

  // ---------- The terms ----------

  /** At least 15 seconds; otherwise six announced intervals (in hundredths of a second), less than 2 seconds short. */
  ghost predicate HoldsFor(holdTime: nat, interval: U16)
  {
    holdTime >= 15 && 100 * holdTime > 6 * interval - 200 && (holdTime > 15 ==> 100 * holdTime <= 6 * interval)
  }

  lemma HoldTimeHolds(interval: U16)
    ensures HoldsFor(HoldTime(interval), interval) && 100 * HoldTime(interval) >= 4 * interval
  {
  }

  /** An update that may be used: the source is not known or is forgotten, it retracts, or it is better. */
  ghost predicate Welcome(sources: SourceTable, u: Update, now: int)
  {
    || u.key !in sources || u.refmetric >= 0xFFFF
    || Better(Dist(u.seqno, u.refmetric), Dist(sources[u.key].seqno, sources[u.key].metric))
    || sources[u.key].time < now - 200
  }

  lemma FeasibleIsWelcome(st: Local, u: Update, now: int)
    requires LocalOk(st, u.key.dest)
    ensures FeasibleUpdate(SourcesFor(st, u, now), u, now) <==> Welcome(st.sources, u, now)
  {
  }

  /** The sum that becomes the metric is on the other side of infinity, and the kernel will not have it. */
  ghost predicate Refused(r: Route, refmetric: U16, cost: U16, add: U16, k: Kernel)
  {
    r.installed && k != Done && (r.Metric() < 0xFFFF) != ((refmetric as int) + cost + add < 0xFFFF)
  }

  lemma StuckIsRefused(r: Route, refmetric: U16, cost: U16, add: U16, k: Kernel)
    ensures Stuck(r, refmetric, cost, add, k) <==> Refused(r, refmetric, cost, add, k)
  {
  }

  /** `w` is `r` after an update: who, when, how long, how far. */
  ghost predicate Overwritten(r: Route, w: Route, u: Update, welcome: bool, env: Env)
  {
    && w.src == u.key && w.seqno == u.seqno && w.neigh == r.neigh && w.nexthop == r.nexthop
    && w.time == (if u.refmetric < 0xFFFF && (welcome || env.keepUnfeasible) then env.now else r.time)
    && HoldsFor(w.holdTime, u.interval)
    && (w.refmetric, w.cost, w.addMetric) ==
       (if Refused(r, u.refmetric, env.cost, env.add, env.kMetric) && (welcome || u.key == r.src)
        then (r.refmetric, r.cost, r.addMetric) else (u.refmetric, env.cost, env.add))
  }

  /** The route through a neighbour and next hop. */
  ghost predicate Holds(l: Slot, r: Route)
  {
    exists j | 0 <= j < |l| :: l[j] == r.(installed := l[j].installed)
  }

  lemma SameRoutesHolds(l: Slot, m: Slot, r: Route)
    requires SameRoutes(l, m) && r in l
    ensures Holds(m, r)
  {
    var s := SameRoutesMember(m, l, r);
    var j :| 0 <= j < |m| && m[j] == s;
    assert m[j] == r.(installed := m[j].installed);
  }

  // ---------- update_route on a stored route ----------

  ghost predicate Stores(st: Local, u: Update, env: Env, i: nat)
  {
    LocalOk(st, u.key.dest) && !Ignored(u, env) && i == Find(st.slot, u.neigh, u.nexthop) && i < |st.slot|
  }

  lemma StoredOverwrites(st: Local, u: Update, env: Env, i: nat, welcome: bool)
    requires Stores(st, u, env, i) && welcome == Welcome(st.sources, u, env.now)
    ensures Overwritten(st.slot[i], Stored(st.slot, i, u, welcome, env)[i], u, welcome, env)
  {
    HoldTimeHolds(u.interval);
    var r := if Lost(st.slot[i], u, welcome) then st.slot[i].(installed := false) else st.slot[i];
    StuckIsRefused(r, u.refmetric, env.cost, env.add, env.kMetric);
  }

  /**
    The route of the update has the fields that the update calls for, and every other route is as it
    was, apart from which one is installed.
  */
  lemma UpdateRouteWrites(st: Local, u: Update, env: Env, i: nat) returns (w: Route)
    requires Stores(st, u, env, i)
    ensures Overwritten(st.slot[i], w, u, Welcome(st.sources, u, env.now), env)
    ensures Holds(UpdateRoute(st, u, env).slot, w) && SameRoutes(st.slot[i := w], UpdateRoute(st, u, env).slot)
  {
    var welcome := FeasibleUpdate(SourcesFor(st, u, env.now), u, env.now);
    FeasibleIsWelcome(st, u, env.now);
    var stored := Stored(st.slot, i, u, welcome, env);
    w := stored[i];
    StoredOverwrites(st, u, env, i, welcome);
    CountSrcPositive(st.slot, i);
    UpdateExistingReselects(Local(SourcesFor(st, u, env.now), st.slot), i, u, env);
    SameRoutesHolds(stored, UpdateRoute(st, u, env).slot, w);
  }

  /** A refreshed route is not expired before six intervals, less 2 seconds, or 15 seconds have passed. */
  lemma RefreshedLives(r: Route, w: Route, u: Update, welcome: bool, env: Env, later: int)
    requires Overwritten(r, w, u, welcome, env) && u.refmetric < 0xFFFF && (welcome || env.keepUnfeasible)
    requires later - env.now <= 15 || 100 * (later - env.now) <= 6 * u.interval - 200
    ensures Alive(w, later) && !w.Expired(later)
  {
  }

  /** Unless the kernel refuses, the metric is the sum of what was announced, the link cost and the filter. */
  lemma OverwrittenMetric(r: Route, w: Route, u: Update, welcome: bool, env: Env)
    requires Overwritten(r, w, u, welcome, env) && !Refused(r, u.refmetric, env.cost, env.add, env.kMetric)
    ensures w.Metric() == Min((u.refmetric as int) + env.cost + env.add, 0xFFFF)
  {
  }

  // ---------- Which route is in use after update_route ----------

  /** Only the distance and time of a source matter. */
  lemma SameAcceptable(r: Route, t: SourceTable, t': SourceTable, now: int)
    requires r.src in t && r.src in t' && t[r.src].Fd() == t'[r.src].Fd() && t[r.src].time == t'[r.src].time
    ensures Acceptable(r, t, now) <==> Acceptable(r, t', now)
  {
  }

  /** Two tables that differ in reference counts only. */
  ghost predicate Recounted(t: SourceTable, t': SourceTable)
  {
    forall key | key in t :: key in t' && t[key].Fd() == t'[key].Fd() && t[key].time == t'[key].time
  }

  lemma SameFirstBest(l: Slot, b: nat, t: SourceTable, t': SourceTable, now: int)
    requires SourcesKnown(l, t) && Recounted(t, t')
    ensures FirstBest(l, b, t, now) <==> FirstBest(l, b, t', now)
  {
    forall j | 0 <= j < |l| ensures Acceptable(l[j], t, now) <==> Acceptable(l[j], t', now) {
      SameAcceptable(l[j], t, t', now);
    }
  }

  /** What `update_route` leaves when the route was stored: selection on the list with the fields written. */
  lemma UpdateRouteIs(st: Local, u: Update, env: Env, i: nat, stored: Slot, t: SourceTable, lost: bool)
    requires Stores(st, u, env, i) && t == Retain(SourcesFor(st, u, env.now), u.key)
    requires stored == Stored(st.slot, i, u, Welcome(st.sources, u, env.now), env)
    requires lost <==> !Welcome(st.sources, u, env.now) && st.slot[i].installed && st.slot[i].src != u.key
    ensures SlotOk(stored) && SourcesKnown(stored, t) && Recounted(t, UpdateRoute(st, u, env).sources)
    ensures var m := RouteChanged(stored, i, st.slot[i].Metric(), t, env.now, env.blocked, env.kChanged);
      && SourcesKnown(m, t)
      && UpdateRoute(st, u, env).slot == if lost then RouteLost(m, t, env.now, env.blocked, env.kLost) else m
  {
    FeasibleIsWelcome(st, u, env.now);
    CountSrcPositive(st.slot, i);
    StoredOk(Local(SourcesFor(st, u, env.now), st.slot), i, u, Welcome(st.sources, u, env.now), env);
    RouteChangedReselects(stored, i, st.slot[i].Metric(), t, env.now, env.blocked, env.kChanged);
  }

  /** The route through a neighbour and next hop is in use. */
  ghost predicate Uses(l: Slot, neigh: RouterId, nexthop: Prefix)
  {
    HeadInstalled(l) && l[0].neigh == neigh && l[0].nexthop == nexthop
  }

  lemma UsesOne(l: Slot, m: Slot, i: nat)
    requires SlotOk(l) && SlotOk(m) && SameRoutes(l, m) && i < |l|
    ensures Uses(m, l[i].neigh, l[i].nexthop) <==> InUse(m, l[i])
  {
    if HeadInstalled(m) {
      var s := SameRoutesMember(l, m, m[0]);
      var j :| 0 <= j < |l| && l[j] == s;
      assert j != i ==> l[i].Key() != l[j].Key();
    }
  }

  lemma ConsideredUses(l: Slot, i: nat, oldmetric: U16, t: SourceTable, now: int, blocked: bool, k: Kernel)
    requires i < |l| && SlotOk(l) && SourcesKnown(l, t) && !l[i].installed
    ensures Uses(RouteChanged(l, i, oldmetric, t, now, blocked, k), l[i].neigh, l[i].nexthop) <==>
      && Acceptable(l[i], t, now) && !blocked
      && (if HeadInstalled(l) then k == Done && WorthIt(l[i].Metric(), l[0].Metric()) else k != Failed)
  {
    ChangedIsConsidered(l, i, oldmetric, t, now, blocked, k);
    RouteChangedReselects(l, i, oldmetric, t, now, blocked, k);
    UsesOne(l, RouteChanged(l, i, oldmetric, t, now, blocked, k), i);
  }

  /** Routes with the same fields but for the hold time are as acceptable and as far. */
  lemma SameFields(r: Route, v: Route, w: Route, u: Update, welcome: bool, env: Env, t: SourceTable)
    requires Overwritten(r, v, u, welcome, env) && Overwritten(r, w, u, welcome, env)
    ensures v.Metric() == w.Metric() && v.src == w.src
    ensures v.neigh == w.neigh == r.neigh && v.nexthop == w.nexthop == r.nexthop
    ensures Acceptable(v, t, env.now) <==> Acceptable(w, t, env.now)
  {
  }

  /** An alternative is taken into use when the update makes that worth while. */
  lemma UpdateRouteConsiders(st: Local, u: Update, env: Env, i: nat, w: Route)
    requires Stores(st, u, env, i) && !st.slot[i].installed
    requires Overwritten(st.slot[i], w, u, Welcome(st.sources, u, env.now), env)
    ensures var end := UpdateRoute(st, u, env);
      Uses(end.slot, u.neigh, u.nexthop) <==>
        && Acceptable(w, end.sources, env.now) && !env.blocked
        && (if HeadInstalled(st.slot) then env.kChanged == Done && WorthIt(w.Metric(), st.slot[0].Metric())
            else env.kChanged != Failed)
  {
    var welcome := Welcome(st.sources, u, env.now);
    var stored, t := Stored(st.slot, i, u, welcome, env), Retain(SourcesFor(st, u, env.now), u.key);
    StoredOverwrites(st, u, env, i, welcome);
    SameFields(st.slot[i], stored[i], w, u, welcome, env, UpdateRoute(st, u, env).sources);
    UpdateRouteIs(st, u, env, i, stored, t, false);
    ConsideredUses(stored, i, st.slot[i].Metric(), t, env.now, env.blocked, env.kChanged);
    SameAcceptable(stored[i], t, UpdateRoute(st, u, env).sources, env.now);
  }

  /** Whether a route is the first best does not depend on the head, as long as it beats the head. */
  lemma FirstBestBehind(l: Slot, v: Route, w: Route, b: nat, t: SourceTable, now: int)
    requires 0 < b < |l| && l[b].Metric() < v.Metric() == w.Metric()
    ensures FirstBest(l[0 := v], b, t, now) <==> FirstBest(l[0 := w], b, t, now)
  {
    assert forall j | 0 < j < |l| :: l[0 := v][j] == l[j] && l[0 := w][j] == l[j];
  }

  /** The installed route is left for the first best one when the update makes it worse by enough. */
  lemma UpdateRouteLeaves(st: Local, u: Update, env: Env, b: nat, w: Route)
    requires Stores(st, u, env, 0) && st.slot[0].installed && 0 < b < |st.slot|
    requires Welcome(st.sources, u, env.now) || st.slot[0].src == u.key
    requires Overwritten(st.slot[0], w, u, Welcome(st.sources, u, env.now), env)
    ensures var end := UpdateRoute(st, u, env);
      InUse(end.slot, st.slot[b]) <==>
        && w.Metric() > st.slot[0].Metric() && w.Metric() - st.slot[b].Metric() >= 96
        && FirstBest(st.slot[0 := w], b, end.sources, env.now) && !env.blocked && env.kChanged == Done
  {
    var welcome := Welcome(st.sources, u, env.now);
    var stored, t := Stored(st.slot, 0, u, welcome, env), Retain(SourcesFor(st, u, env.now), u.key);
    StoredOverwrites(st, u, env, 0, welcome);
    UpdateRouteIs(st, u, env, 0, stored, t, false);
    RouteChangedDecides(stored, st.slot[0].Metric(), t, env.now, env.blocked, env.kChanged, b);
    SameFirstBest(stored, b, t, UpdateRoute(st, u, env).sources, env.now);
    if st.slot[b].Metric() < w.Metric() {
      FirstBestBehind(st.slot, stored[0], w, b, UpdateRoute(st, u, env).sources, env.now);
    }
  }

  /** An unwelcome update for another source takes the route out of use, and another may come in. */
  lemma UpdateRouteLoses(st: Local, u: Update, env: Env, b: nat, w: Route)
    requires Stores(st, u, env, 0) && st.slot[0].installed && b < |st.slot|
    requires !Welcome(st.sources, u, env.now) && st.slot[0].src != u.key
    requires Overwritten(st.slot[0], w, u, false, env)
    ensures var end := UpdateRoute(st, u, env);
      Uses(end.slot, st.slot[b].neigh, st.slot[b].nexthop) <==>
        && b > 0 && FirstBest(st.slot[0 := w], b, end.sources, env.now) && st.slot[b].Metric() < w.Metric()
        && !env.blocked && env.kLost != Failed
  {
    var l, t := Stored(st.slot, 0, u, false, env), Retain(SourcesFor(st, u, env.now), u.key);
    var end := UpdateRoute(st, u, env);
    StoredOverwrites(st, u, env, 0, false);
    SameFields(st.slot[0], l[0], w, u, false, env, t);
    UpdateRouteIs(st, u, env, 0, l, t, true);
    LostUses(l, st.slot[0].Metric(), t, env, b);
    SameFirstBest(l, b, t, end.sources, env.now);
    if b > 0 && st.slot[b].Metric() < w.Metric() { FirstBestBehind(st.slot, l[0], w, b, end.sources, env.now); }
  }

  lemma LostUses(l: Slot, oldmetric: U16, t: SourceTable, env: Env, b: nat)
    requires SlotOk(l) && SourcesKnown(l, t) && b < |l| && !HeadInstalled(l) && !Acceptable(l[0], t, env.now)
    ensures var m := RouteChanged(l, 0, oldmetric, t, env.now, env.blocked, env.kChanged);
      && SourcesKnown(m, t)
      && (Uses(RouteLost(m, t, env.now, env.blocked, env.kLost), l[b].neigh, l[b].nexthop) <==>
          && b > 0 && FirstBest(l, b, t, env.now) && l[b].Metric() < l[0].Metric()
          && !env.blocked && env.kLost != Failed)
  {
    ChangedIsConsidered(l, 0, oldmetric, t, env.now, env.blocked, env.kChanged);
    RouteLostDecides(l, t, env.now, env.blocked, env.kLost, b);
    RouteLostReselects(l, t, env.now, env.blocked, env.kLost);
    UsesOne(l, RouteLost(l, t, env.now, env.blocked, env.kLost), b);
  }

  // ---------- update_route on a new route ----------

  /** An update is passed over when it is our own, for an address that is not routable, or filtered out. */
  lemma UpdateRouteIgnores(st: Local, u: Update, env: Env)
    requires LocalOk(st, u.key.dest) && (u.key.id == env.myid || env.martian || env.add >= 0xFFFF)
    ensures UpdateRoute(st, u, env) == st
  {
  }

  ghost predicate Unseen(st: Local, u: Update, env: Env)
  {
    && LocalOk(st, u.key.dest) && u.key.id != env.myid && !env.martian && env.add < 0xFFFF
    && forall r <- st.slot :: r.neigh != u.neigh || r.nexthop != u.nexthop
  }

  /** The route that an update from nowhere brings. */
  ghost predicate Brought(w: Route, u: Update, env: Env)
  {
    && w.src == u.key && w.seqno == u.seqno && w.neigh == u.neigh && w.nexthop == u.nexthop && !w.installed
    && w.refmetric == u.refmetric && w.cost == env.cost && w.addMetric == env.add
    && w.time == env.now && HoldsFor(w.holdTime, u.interval)
  }

  /**
    A route never seen is stored exactly when it is finite, welcome or wanted all the same, and there
    is memory; nothing else changes but which route is installed.
  */
  lemma UpdateRouteAdds(st: Local, u: Update, env: Env) returns (w: Route)
    requires Unseen(st, u, env)
    ensures Brought(w, u, env)
    ensures var end, welcome := UpdateRoute(st, u, env), Welcome(st.sources, u, env.now);
      if u.refmetric < 0xFFFF && (welcome || env.keepUnfeasible) && env.allocates && env.inserts then
        && SameRoutes(st.slot + [w], end.slot)
        && (InUse(end.slot, w) <==>
            && Acceptable(w, end.sources, env.now) && !env.blocked
            && (if HeadInstalled(st.slot) then env.kChanged == Done && WorthIt(w.Metric(), st.slot[0].Metric())
                else env.kChanged != Failed))
      else end.slot == st.slot
  {
    w := NewRoute(u, env);
    HoldTimeHolds(u.interval);
    FeasibleIsWelcome(st, u, env.now);
    NotFound(st.slot, u);
    var st1 := Local(SourcesFor(st, u, env.now), st.slot);
    if u.refmetric < 0xFFFF && (Welcome(st.sources, u, env.now) || env.keepUnfeasible) && env.allocates && env.inserts {
      var l, t := st.slot + [w], Retain(st1.sources, u.key);
      AppendLocal(st1, u, env);
      ConsiderReselects(l, |st.slot|, t, env.now, env.blocked, env.kChanged);
      ConsiderDecides(l, |st.slot|, t, env.now, env.blocked, env.kChanged);
    }
  }

  lemma NotFound(l: Slot, u: Update)
    requires forall r <- l :: r.neigh != u.neigh || r.nexthop != u.nexthop
    ensures Find(l, u.neigh, u.nexthop) == |l|
  {
    assert forall i | 0 <= i < |l| :: l[i] in l;
  }

  // ---------- Sources ----------

  lemma SourcesRecounted(t: SourceTable, x: SourceKey, y: SourceKey)
    requires x in t && y in t
    ensures Recounted(t, Retain(t, x)) && Retain(t, x).Keys == t.Keys
    ensures Retain(t, x)[y].routeCount > 0 ==>
      Recounted(t, Release(Retain(t, x), y)) && Release(Retain(t, x), y).Keys == t.Keys
  {
  }

  /** The table after the lookup, retained for the new route and released for the old one. */
  lemma SourcesAfter(st: Local, u: Update, env: Env) returns (t: SourceTable)
    requires LocalOk(st, u.key.dest) && !Ignored(u, env)
    ensures t == SourcesFor(st, u, env.now)
    ensures Recounted(t, UpdateRoute(st, u, env).sources) && UpdateRoute(st, u, env).sources.Keys == t.Keys
  {
    var i := Find(st.slot, u.neigh, u.nexthop);
    t := SourcesFor(st, u, env.now);
    if i < |st.slot| {
      CountSrcPositive(st.slot, i);
      SourcesRecounted(t, u.key, st.slot[i].src);
    } else {
      SourcesRecounted(t, u.key, u.key);
    }
  }

  /** Known sources keep distance and time; one that is new starts with no distance, now. */
  lemma UpdateRouteSources(st: Local, u: Update, env: Env)
    requires LocalOk(st, u.key.dest)
    ensures var t := UpdateRoute(st, u, env).sources;
      && Recounted(st.sources, t)
      && (!Ignored(u, env) ==> t.Keys == st.sources.Keys + {u.key})
      && (!Ignored(u, env) && u.key !in st.sources ==>
            t[u.key].seqno == u.seqno && t[u.key].metric == 0xFFFF && t[u.key].time == env.now)
  {
    if !Ignored(u, env) {
      var t := SourcesAfter(st, u, env);
      assert t.Keys == st.sources.Keys + {u.key} && Recounted(st.sources, t);
    }
  }

  // ---------- retract_route, update_route_metric ----------

  /** What a change of route `i` of `l`, whose metric was `oldmetric`, leads to: the list `m`. */
  ghost predicate Rechosen(l: Slot, i: nat, oldmetric: U16, t: SourceTable, env: Env, m: Slot)
    requires i < |l|
  {
    && SameRoutes(l, m)
    && (!l[i].installed ==>
          && (InUse(m, l[i]) <==>
              && Acceptable(l[i], t, env.now) && !env.blocked
              && (if HeadInstalled(l) then env.kChanged == Done && WorthIt(l[i].Metric(), l[0].Metric())
                  else env.kChanged != Failed))
          && (!InUse(m, l[i]) ==> m == l))
    && (l[i].installed ==>
          && (forall b | 0 < b < |l| :: InUse(m, l[b]) <==>
                && l[i].Metric() > oldmetric && FirstBest(l, b, t, env.now) && l[i].Metric() - l[b].Metric() >= 96
                && !env.blocked && env.kChanged == Done)
          && (InUse(m, l[i]) ==> m == l))
  }

  lemma ChangedRechooses(l: Slot, i: nat, oldmetric: U16, t: SourceTable, env: Env)
    requires i < |l| && SlotOk(l) && SourcesKnown(l, t)
    ensures Rechosen(l, i, oldmetric, t, env, RouteChanged(l, i, oldmetric, t, env.now, env.blocked, env.kChanged))
  {
    RouteChangedReselects(l, i, oldmetric, t, env.now, env.blocked, env.kChanged);
    if l[i].installed {
      forall b | 0 < b < |l| {
        RouteChangedDecides(l, oldmetric, t, env.now, env.blocked, env.kChanged, b);
      }
      if |l| > 1 {
        RouteChangedDecides(l, oldmetric, t, env.now, env.blocked, env.kChanged, 1);
      } else {
        OnlyRoute(l, oldmetric, t, env);
      }
    } else {
      ChangedIsConsidered(l, i, oldmetric, t, env.now, env.blocked, env.kChanged);
    }
  }

  lemma OnlyRoute(l: Slot, oldmetric: U16, t: SourceTable, env: Env)
    requires |l| == 1 && SourcesKnown(l, t) && l[0].installed
    ensures RouteChanged(l, 0, oldmetric, t, env.now, env.blocked, env.kChanged) == l
  {
  }

  /** A route that the kernel lets go has no metric any more; one that it keeps has the new seqno only. */
  function Retracted(r: Route, seqno: U16, k: Kernel): Route
  {
    if r.installed && r.Metric() < 0xFFFF && k != Done then r.(seqno := seqno)
    else r.(seqno := seqno, refmetric := 0xFFFF, cost := 0xFFFF, addMetric := 0)
  }

  lemma RetractRouteWrites(st: Local, i: nat, seqno: U16, env: Env, dest: Destination)
    requires LocalOk(st, dest) && i < |st.slot|
    ensures var r, end := st.slot[i], RetractRoute(st, i, seqno, env);
      var l := st.slot[i := Retracted(r, seqno, env.kMetric)];
      && end.sources == st.sources
      && (r.refmetric == 0xFFFF ==> end == st)
      && (r.refmetric < 0xFFFF == r.Metric() ==> end.slot == l)
      && (r.Metric() < 0xFFFF ==> Rechosen(l, i, r.Metric(), st.sources, env, end.slot))
  {
    var r := st.slot[i];
    var w := ChangeMetric(r.(seqno := seqno), INFINITY, INFINITY, 0, env.kMetric);
    assert w == Retracted(r, seqno, env.kMetric);
    RewriteLocal(st, i, w, dest);
    ChangedRechooses(st.slot[i := w], i, r.Metric(), st.sources, env);
  }

  /** A link that has changed its cost, unless the kernel refuses. */
  function Recosted(r: Route, env: Env): Route
  {
    var finite := (r.refmetric as int) + env.cost + env.add < 0xFFFF;
    if r.installed && env.kMetric != Done && (r.Metric() < 0xFFFF) != finite then r
    else r.(cost := env.cost, addMetric := env.add)
  }

  lemma RecostedIs(r: Route, env: Env)
    ensures ChangeMetric(r, r.refmetric, env.cost, env.add, env.kMetric) == Recosted(r, env)
    ensures var w := Recosted(r, env); w.src == r.src && w.Key() == r.Key() && w.installed == r.installed
  {
  }

  /** The successor of a seqno. */
  lemma NextSeqno(s: U16)
    ensures SeqnoPlus(s, 1) == if s == 0xFFFF then 0 else s + 1
  {
  }

  /** An expired route is retracted under the successor of its source's seqno. */
  lemma ExpiredIsRetracted(st: Local, i: nat, env: Env, dest: Destination)
    requires LocalOk(st, dest) && i < |st.slot| && env.now - st.slot[i].time > st.slot[i].holdTime
    ensures var seqno := st.sources[st.slot[i].src].seqno;
      UpdateRouteMetric(st, i, env) == RetractRoute(st, i, if seqno == 0xFFFF then 0 else seqno + 1, env)
  {
    NextSeqno(st.sources[st.slot[i].src].seqno);
  }

  /** Another gets the new link cost, and counts as changed if its metric does. */
  lemma UpdateRouteMetricWrites(st: Local, i: nat, env: Env, dest: Destination)
    requires LocalOk(st, dest) && i < |st.slot| && env.now - st.slot[i].time <= st.slot[i].holdTime
    ensures var r, end := st.slot[i], UpdateRouteMetric(st, i, env);
      var l := st.slot[i := Recosted(r, env)];
      && end.sources == st.sources
      && (if Recosted(r, env).Metric() == r.Metric() then end.slot == l
          else Rechosen(l, i, r.Metric(), st.sources, env, end.slot))
  {
    var r, w := st.slot[i], Recosted(st.slot[i], env);
    RecostedIs(r, env);
    RewriteLocal(st, i, w, dest);
    ChangedRechooses(st.slot[i := w], i, r.Metric(), st.sources, env);
  }

  // ---------- flush_route ----------

  /** The route is gone, its source is counted once less, and if it was in use another may come in. */
  lemma FlushRouteRemoves(st: Local, i: nat, env: Env, dest: Destination)
    requires LocalOk(st, dest) && i < |st.slot| && st.sources[st.slot[i].src].routeCount > 0
    ensures var r, end, rest := st.slot[i], FlushRoute(st, i, env), st.slot[..i] + st.slot[i + 1..];
      && Recounted(st.sources, end.sources) && end.sources.Keys == st.sources.Keys
      && end.sources[r.src].routeCount == st.sources[r.src].routeCount - 1
      && SameRoutes(rest, end.slot)
      && (!r.installed ==> end.slot == rest)
      && (r.installed ==> forall b | 0 <= b < |rest| :: InUse(end.slot, rest[b]) <==>
            && !env.blocked && env.kLost != Failed && Acceptable(rest[b], st.sources, env.now)
            && (if b > 0 then FirstBest(rest, b, st.sources, env.now) && rest[b].Metric() < rest[0].Metric()
                else forall j | 0 < j < |rest| && Acceptable(rest[j], st.sources, env.now) && Alive(rest[j], env.now) ::
                  rest[0].Metric() <= rest[j].Metric()))
  {
    var r, rest := st.slot[i], st.slot[..i] + st.slot[i + 1..];
    RemoveLocal(st, i, dest);
    RouteLostReselects(rest, st.sources, env.now, env.blocked, env.kLost);
    if r.installed {
      forall b | 0 <= b < |rest| { RouteLostDecides(rest, st.sources, env.now, env.blocked, env.kLost, b); }
    }
  }
}

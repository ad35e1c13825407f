/**
  The operations of quagga-srx/babeld/route.c that change routes and sources
  together: update_route, flush_route, update_route_metric, retract_route.
  Stated for one destination: its slot and the source table.
*/
module RouteUpdate {
  import opened Octets
  import opened Distance
  import opened Sources
  import opened RouteSlot

  datatype Local = Local(sources: SourceTable, slot: Slot)

  /** A received update, after parsing. */
  datatype Update = Update(key: SourceKey, seqno: U16, refmetric: U16, interval: U16, neigh: RouterId, nexthop: Prefix)

  /** What the operations read from outside: clock, link cost, filters, exported routes, kernel, allocator. */
  datatype Env = Env(
    myid: RouterId,
    now: int,
    cost: U16,              // neighbour_cost, as stored in the route
    add: U16,               // input_filter
    martian: bool,          // martian_prefix
    blocked: bool,          // an exported route has precedence in consider_route
    keepUnfeasible: bool,
    allocates: bool,        // malloc(route) succeeds
    inserts: bool,          // insert_route succeeds
    kMetric: Kernel,        // answers of kernel_route, call by call
    kChanged: Kernel,
    kLost: Kernel)

  function HoldTime(interval: U16): nat { Max((4 * interval as int) / 100 + (interval as int) / 50, 15) }

  /** Structure, destination, sources known, and the reference counts exact. */
  ghost predicate CountsOk(sources: SourceTable, slot: Slot, dest: Destination)
  {
    && SourcesKnown(slot, sources)
    && forall key | key in sources && key.dest == dest :: sources[key].routeCount == CountSrc(slot, key)
  }

  ghost predicate LocalOk(st: Local, dest: Destination)
  {
    && SlotOk(st.slot)
    && (forall r <- st.slot :: r.src.dest == dest)
    && CountsOk(st.sources, st.slot, dest)
  }

  // ---------- update_route ----------

  /** The source table after the lookup at the top of `update_route`. */
  function SourcesFor(st: Local, u: Update, now: int): (t: SourceTable)
    requires LocalOk(st, u.key.dest)
    ensures u.key in t && LocalOk(Local(t, st.slot), u.key.dest)
    ensures t == st.sources || (u.key !in st.sources && t == st.sources[u.key := Source(u.seqno, INFINITY, 0, now)])
  {
    var i := Find(st.slot, u.neigh, u.nexthop);
    if i < |st.slot| && st.slot[i].src.id == u.key.id then
      assert st.slot[i].src == u.key;
      st.sources
    else
      UnknownUncounted(st, u.key);
      FindSource(st.sources, u.key, u.seqno, now)
  }

  /** The value of `feasible` in `update_route`. */
  predicate FeasibleUpdate(t: SourceTable, u: Update, now: int)
    requires u.key in t
  {
    UpdateFeasible(t[u.key], u.seqno, u.refmetric, now)
  }

  /** The stored route after `update_route` has written its fields. */
  function Rewritten(r: Route, u: Update, feasible: bool, env: Env): Route
  {
    var r1 := r.(src := u.key, seqno := u.seqno,
                 time := if (feasible || env.keepUnfeasible) && u.refmetric < INFINITY then env.now else r.time);
    ChangeMetric(r1, u.refmetric, env.cost, env.add, env.kMetric).(holdTime := HoldTime(u.interval))
  }

  /** An unfeasible update that changes the source of the installed route makes it lost. */
  predicate Lost(r: Route, u: Update, feasible: bool)
  {
    !feasible && r.installed && u.key != r.src
  }

  /** The slot before route selection runs. */
  function Stored(slot: Slot, i: nat, u: Update, feasible: bool, env: Env): Slot
    requires i < |slot|
  {
    var r := if Lost(slot[i], u, feasible) then slot[i].(installed := false) else slot[i];
    slot[i := Rewritten(r, u, feasible, env)]
  }

  function UpdateExisting(st: Local, i: nat, u: Update, env: Env): Local
    requires SlotOk(st.slot) && SourcesKnown(st.slot, st.sources) && u.key in st.sources
    requires i < |st.slot| && st.slot[0].src.dest == u.key.dest && st.sources[st.slot[i].src].routeCount > 0
  {
    var r := st.slot[i];
    var feasible := FeasibleUpdate(st.sources, u, env.now);
    var retained := Retain(st.sources, u.key);
    var stored := Stored(st.slot, i, u, feasible, env);
    StoredOk(st, i, u, feasible, env);
    var changed := RouteChanged(stored, i, r.Metric(), retained, env.now, env.blocked, env.kChanged);
    RouteChangedReselects(stored, i, r.Metric(), retained, env.now, env.blocked, env.kChanged);
    var slot := if Lost(r, u, feasible) then RouteLost(changed, retained, env.now, env.blocked, env.kLost) else changed;
    Local(Release(retained, r.src), slot)
  }

  /** The route that `update_route` creates. */
  function NewRoute(u: Update, env: Env): Route
  {
    Route(u.key, u.refmetric, env.cost, env.add, u.seqno, u.neigh, u.nexthop, env.now, HoldTime(u.interval), false)
  }

  function UpdateNew(st: Local, u: Update, env: Env): Local
    requires SourcesKnown(st.slot, st.sources) && u.key in st.sources
  {
    if u.refmetric >= INFINITY
       || (!FeasibleUpdate(st.sources, u, env.now) && !env.keepUnfeasible)
       || !env.allocates
    then st
    else
      var retained := Retain(st.sources, u.key);
      if !env.inserts then Local(retained, st.slot)
      else
        var slot := st.slot + [NewRoute(u, env)];
        Local(retained, Consider(slot, |st.slot|, retained, env.now, env.blocked, env.kChanged))
  }

  predicate Ignored(u: Update, env: Env)
  {
    u.key.id == env.myid || env.martian || env.add >= INFINITY
  }

  /** `update_route`. */
  function UpdateRoute(st: Local, u: Update, env: Env): Local
    requires LocalOk(st, u.key.dest)
  {
    if Ignored(u, env) then st
    else
      var st1 := Local(SourcesFor(st, u, env.now), st.slot);
      var i := Find(st.slot, u.neigh, u.nexthop);
      if i < |st.slot| then
        CountSrcPositive(st.slot, i);
        UpdateExisting(st1, i, u, env)
      else UpdateNew(st1, u, env)
  }

  // ---------- the other operations ----------

  /** `flush_route`. */
  function FlushRoute(st: Local, i: nat, env: Env): Local
    requires SourcesKnown(st.slot, st.sources) && i < |st.slot|
    requires st.sources[st.slot[i].src].routeCount > 0
  {
    var r := st.slot[i];
    var rest := st.slot[..i] + st.slot[i + 1..];
    var slot := if r.installed then RouteLost(rest, st.sources, env.now, env.blocked, env.kLost) else rest;
    Local(Release(st.sources, r.src), slot)
  }

  /** `retract_route` followed by `route_changed` when the metric was finite. */
  function RetractRoute(st: Local, i: nat, seqno: U16, env: Env): Local
    requires SourcesKnown(st.slot, st.sources) && i < |st.slot|
  {
    var r := st.slot[i];
    if r.refmetric >= INFINITY then st
    else
      var slot := st.slot[i := ChangeMetric(r.(seqno := seqno), INFINITY, INFINITY, 0, env.kMetric)];
      if r.Metric() < INFINITY
      then st.(slot := RouteChanged(slot, i, r.Metric(), st.sources, env.now, env.blocked, env.kChanged))
      else st.(slot := slot)
  }

  /** `update_route_metric`. */
  function UpdateRouteMetric(st: Local, i: nat, env: Env): Local
    requires SourcesKnown(st.slot, st.sources) && i < |st.slot|
  {
    var r := st.slot[i];
    if r.Expired(env.now) then
      RetractRoute(st, i, SeqnoPlus(st.sources[r.src].seqno, 1), env)
    else
      var slot := st.slot[i := ChangeMetric(r, r.refmetric, env.cost, env.add, env.kMetric)];
      if slot[i].Metric() != r.Metric()
      then st.(slot := RouteChanged(slot, i, r.Metric(), st.sources, env.now, env.blocked, env.kChanged))
      else st.(slot := slot)
  }

  // ---------- well-formedness helpers ----------

  lemma StoredOk(st: Local, i: nat, u: Update, feasible: bool, env: Env)
    requires SlotOk(st.slot) && SourcesKnown(st.slot, st.sources) && u.key in st.sources
    requires i < |st.slot| && st.slot[0].src.dest == u.key.dest
    ensures SlotOk(Stored(st.slot, i, u, feasible, env))
    ensures SourcesKnown(Stored(st.slot, i, u, feasible, env), Retain(st.sources, u.key))
  {
    var l, m := st.slot, Stored(st.slot, i, u, feasible, env);
    AlikeOk(l, m);
  }

  lemma {:induction false} UncountedIn(l: Slot, key: SourceKey)
    requires forall r <- l :: r.src != key
    ensures CountSrc(l, key) == 0
  {
    if l != [] { UncountedIn(l[1..], key); }
  }

  lemma UnknownUncounted(st: Local, key: SourceKey)
    requires SourcesKnown(st.slot, st.sources)
    ensures key !in st.sources ==> CountSrc(st.slot, key) == 0
  {
    if key !in st.sources { UncountedIn(st.slot, key); }
  }

  // ---------- Structure and reference counts over every operation ----------

  lemma SameRoutesLocal(l: Slot, m: Slot, sources: SourceTable, dest: Destination)
    requires SlotOk(m) && SameRoutes(l, m)
    requires LocalOk(Local(sources, l), dest)
    ensures LocalOk(Local(sources, m), dest)
  {
    SameRoutesKnown(l, m, sources);
    forall r <- m ensures r.src.dest == dest { var s := SameRoutesMember(l, m, r); }
    forall key { SameRoutesCount(l, m, key); }
  }

  lemma ReselectedLocal(l: Slot, m: Slot, sources: SourceTable, now: int, dest: Destination)
    requires Reselected(l, m, sources, now) && LocalOk(Local(sources, l), dest)
    ensures LocalOk(Local(sources, m), dest)
  {
    SameRoutesLocal(l, m, sources, dest);
  }

  lemma StoredCounts(st: Local, i: nat, u: Update, feasible: bool, env: Env)
    requires LocalOk(st, u.key.dest) && u.key in st.sources && i < |st.slot|
    requires st.sources[st.slot[i].src].routeCount > 0
    ensures LocalOk(Local(Release(Retain(st.sources, u.key), st.slot[i].src), Stored(st.slot, i, u, feasible, env)),
        u.key.dest)
  {
    var stored := Stored(st.slot, i, u, feasible, env);
    StoredOk(st, i, u, feasible, env);
    forall key { CountSrcUpdate(st.slot, i, stored[i], key); }
    assert forall x <- stored :: x.src.dest == u.key.dest;
  }

  /** Storing an update and then selecting: nothing but selection happens after `Stored`. */
  lemma UpdateExistingReselects(st: Local, i: nat, u: Update, env: Env)
    requires SlotOk(st.slot) && SourcesKnown(st.slot, st.sources) && u.key in st.sources
    requires i < |st.slot| && st.slot[0].src.dest == u.key.dest && st.sources[st.slot[i].src].routeCount > 0
    ensures Reselected(Stored(st.slot, i, u, FeasibleUpdate(st.sources, u, env.now), env),
                       UpdateExisting(st, i, u, env).slot, Retain(st.sources, u.key), env.now)
  {
    var r, feasible := st.slot[i], FeasibleUpdate(st.sources, u, env.now);
    var retained := Retain(st.sources, u.key);
    var stored := Stored(st.slot, i, u, feasible, env);
    StoredOk(st, i, u, feasible, env);
    var changed := RouteChanged(stored, i, r.Metric(), retained, env.now, env.blocked, env.kChanged);
    RouteChangedReselects(stored, i, r.Metric(), retained, env.now, env.blocked, env.kChanged);
    RouteLostReselects(changed, retained, env.now, env.blocked, env.kLost);
  }

  lemma UpdateExistingOk(st: Local, i: nat, u: Update, env: Env)
    requires LocalOk(st, u.key.dest) && u.key in st.sources && i < |st.slot|
    requires st.sources[st.slot[i].src].routeCount > 0
    ensures LocalOk(UpdateExisting(st, i, u, env), u.key.dest)
  {
    var feasible := FeasibleUpdate(st.sources, u, env.now);
    UpdateExistingReselects(st, i, u, env);
    StoredCounts(st, i, u, feasible, env);
    var end := UpdateExisting(st, i, u, env);
    SameRoutesLocal(Stored(st.slot, i, u, feasible, env), end.slot, end.sources, u.key.dest);
  }

  lemma AppendLocal(st: Local, u: Update, env: Env)
    requires LocalOk(st, u.key.dest) && u.key in st.sources
    requires Find(st.slot, u.neigh, u.nexthop) == |st.slot|
    ensures LocalOk(Local(Retain(st.sources, u.key), st.slot + [NewRoute(u, env)]), u.key.dest)
  {
    var slot := st.slot + [NewRoute(u, env)];
    forall key
      ensures CountSrc(slot, key) == CountSrc(st.slot, key) + if key == u.key then 1 else 0
    {
      CountSrcAppend(st.slot, [NewRoute(u, env)], key);
    }
    assert DistinctKeys(slot) by {
      assert forall j | 0 <= j < |st.slot| :: !st.slot[j].Matches(u.neigh, u.nexthop);
    }
  }

  /** The branch in which `insert_route` fails after the source was retained. */
  predicate Leaks(st: Local, u: Update, env: Env)
    requires LocalOk(st, u.key.dest)
  {
    && !Ignored(u, env)
    && Find(st.slot, u.neigh, u.nexthop) == |st.slot|
    && u.refmetric < INFINITY
    && (FeasibleUpdate(SourcesFor(st, u, env.now), u, env.now) || env.keepUnfeasible)
    && env.allocates
    && !env.inserts
  }

  /**
    `update_route` keeps the slot well formed and every reference count exact,
    except precisely when `insert_route` fails: that path never releases the source.
  */
  lemma UpdateRouteOk(st: Local, u: Update, env: Env)
    requires LocalOk(st, u.key.dest)
    ensures LocalOk(UpdateRoute(st, u, env), u.key.dest) <==> !Leaks(st, u, env)
  {
    if !Ignored(u, env) {
      var st1 := Local(SourcesFor(st, u, env.now), st.slot);
      var i := Find(st.slot, u.neigh, u.nexthop);
      if i < |st.slot| {
        CountSrcPositive(st.slot, i);
        UpdateExistingOk(st1, i, u, env);
      } else if Leaks(st, u, env) {
        assert st1.sources[u.key].routeCount == CountSrc(st.slot, u.key);
      } else if UpdateRoute(st, u, env) != st1 {
        AppendLocal(st1, u, env);
        var retained, slot := Retain(st1.sources, u.key), st.slot + [NewRoute(u, env)];
        ConsiderReselects(slot, |st.slot|, retained, env.now, env.blocked, env.kChanged);
        ReselectedLocal(slot, UpdateRoute(st, u, env).slot, retained, env.now, u.key.dest);
      }
    }
  }

  lemma RemoveLocal(st: Local, i: nat, dest: Destination)
    requires LocalOk(st, dest) && i < |st.slot|
    ensures st.sources[st.slot[i].src].routeCount > 0
    ensures LocalOk(Local(Release(st.sources, st.slot[i].src), st.slot[..i] + st.slot[i + 1..]), dest)
  {
    CountSrcPositive(st.slot, i);
    var l, m := st.slot, st.slot[..i] + st.slot[i + 1..];
    forall key
      ensures CountSrc(l, key) == CountSrc(m, key) + if key == l[i].src then 1 else 0
    {
      CountSrcSplit(l, i, key);
      CountSrcAppend(l[..i], l[i + 1..], key);
    }
    RemoveOk(l, i);
    assert forall r <- m :: r in l;
  }

  lemma FlushRouteOk(st: Local, i: nat, env: Env, dest: Destination)
    requires LocalOk(st, dest) && i < |st.slot|
    ensures st.sources[st.slot[i].src].routeCount > 0
    ensures LocalOk(FlushRoute(st, i, env), dest)
  {
    RemoveLocal(st, i, dest);
    var rest := st.slot[..i] + st.slot[i + 1..];
    var end := FlushRoute(st, i, env);
    if st.slot[i].installed {
      RouteLostReselects(rest, st.sources, env.now, env.blocked, env.kLost);
      SameRoutesLocal(rest, end.slot, end.sources, dest);
    }
  }

  /** Rewriting metric fields in place keeps a slot well formed. */
  lemma RewriteLocal(st: Local, i: nat, r: Route, dest: Destination)
    requires LocalOk(st, dest) && i < |st.slot|
    requires r.src == st.slot[i].src && r.Key() == st.slot[i].Key() && r.installed == st.slot[i].installed
    ensures LocalOk(st.(slot := st.slot[i := r]), dest)
  {
    var l, m := st.slot, st.slot[i := r];
    forall key { CountSrcUpdate(l, i, r, key); }
    AlikeOk(l, m);
  }

  lemma RewriteChangedLocal(st: Local, i: nat, r: Route, oldmetric: U16, env: Env, dest: Destination)
    requires LocalOk(st, dest) && i < |st.slot|
    requires r.src == st.slot[i].src && r.Key() == st.slot[i].Key() && r.installed == st.slot[i].installed
    ensures LocalOk(st.(slot := st.slot[i := r]), dest)
    ensures var end := RouteChanged(st.slot[i := r], i, oldmetric, st.sources, env.now, env.blocked, env.kChanged);
      LocalOk(st.(slot := end), dest)
  {
    RewriteLocal(st, i, r, dest);
    var m := st.slot[i := r];
    RouteChangedReselects(m, i, oldmetric, st.sources, env.now, env.blocked, env.kChanged);
    ReselectedLocal(m, RouteChanged(m, i, oldmetric, st.sources, env.now, env.blocked, env.kChanged), st.sources,
        env.now, dest);
  }

  lemma UpdateRouteMetricOk(st: Local, i: nat, env: Env, dest: Destination)
    requires LocalOk(st, dest) && i < |st.slot|
    ensures LocalOk(UpdateRouteMetric(st, i, env), dest)
  {
    var r := st.slot[i];
    if r.Expired(env.now) {
      RetractRouteOk(st, i, SeqnoPlus(st.sources[r.src].seqno, 1), env, dest);
    } else {
      RewriteChangedLocal(st, i, ChangeMetric(r, r.refmetric, env.cost, env.add, env.kMetric), r.Metric(), env, dest);
    }
  }

  lemma RetractRouteOk(st: Local, i: nat, seqno: U16, env: Env, dest: Destination)
    requires LocalOk(st, dest) && i < |st.slot|
    ensures LocalOk(RetractRoute(st, i, seqno, env), dest)
  {
    var r := st.slot[i];
    RewriteChangedLocal(st, i, ChangeMetric(r.(seqno := seqno), INFINITY, INFINITY, 0, env.kMetric), r.Metric(), env,
        dest);
  }
}

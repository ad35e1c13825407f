/**
  The routes to one destination (quagga-srx/babeld/route.c): the list kept in
  one slot of the route table, and what every operation of route.c does to it.
  These are the functions that the imperative table of `RouteTable` is proved
  against and that the network model of `BabelNetwork` is built from.
*/
module RouteSlot {
  import opened Octets
  import opened Distance
  import opened Sources

  datatype Route = Route(
    src: SourceKey,
    refmetric: U16,
    cost: U16,
    addMetric: U16,
    seqno: U16,
    neigh: RouterId,
    nexthop: Prefix,
    time: int,
    holdTime: nat,
    installed: bool)
  {
    /** `route_metric`. */
    function Metric(): U16
    {
      Min((refmetric as int) + cost + addMetric, INFINITY)
    }

    /** `route_metric_noninterfering`, with `diversity_factor` as parameter. */
    function MetricNoninterfering(factor: nat): U16
    {
      var m := (refmetric as int) + (factor * cost + 128) / 256 + addMetric;
      Min(Max(m, (refmetric as int) + 1), INFINITY)
    }

    /** `route_expired`. */
    predicate Expired(now: int) { time < now - holdTime }

    /** What `find_route` looks for. */
    function Key(): (RouterId, Prefix) { (neigh, nexthop) }

    predicate Matches(neigh': RouterId, nexthop': Prefix) { Key() == (neigh', nexthop') }

    function Told(): Dist { Dist(seqno, refmetric) }
  }

  type Slot = seq<Route>

  /** Answer of `kernel_route`. */
  datatype Kernel = Done | AlreadyExists | Failed

  // ---------- Structure of a slot ----------

  ghost predicate SameDest(l: Slot) { forall i | 0 <= i < |l| :: l[i].src.dest == l[0].src.dest }

  ghost predicate DistinctKeys(l: Slot) { forall i, j | 0 <= i < j < |l| :: l[i].Key() != l[j].Key() }

  ghost predicate OnlyHeadInstalled(l: Slot) { forall i | 0 < i < |l| :: !l[i].installed }

  /** One destination, one route per (neighbour, next hop), only the head may be installed. */
  ghost predicate SlotOk(l: Slot)
  {
    SameDest(l) && DistinctKeys(l) && OnlyHeadInstalled(l)
  }

  /** Every route's source is in the source table. */
  ghost predicate SourcesKnown(l: Slot, sources: SourceTable)
  {
    forall r <- l :: r.src in sources
  }

  predicate HeadInstalled(l: Slot) { l != [] && l[0].installed }

  /** Position of the route through (`neigh`, `nexthop`), or the length of the list. */
  function Find(l: Slot, neigh: RouterId, nexthop: Prefix): (i: nat)
    ensures i <= |l|
    ensures i < |l| ==> l[i].Matches(neigh, nexthop)
    ensures forall j | 0 <= j < i :: !l[j].Matches(neigh, nexthop)
  {
    if l == [] || l[0].Matches(neigh, nexthop) then 0 else 1 + Find(l[1..], neigh, nexthop)
  }

  /** `move_installed_route`. */
  function MoveToHead(l: Slot, i: nat): Slot
    requires i < |l|
  {
    [l[i]] + l[..i] + l[i + 1..]
  }

  function SetInstalled(l: Slot, i: nat, b: bool): Slot
    requires i < |l|
  {
    l[i := l[i].(installed := b)]
  }

  /** `install_route`. */
  function Install(l: Slot, i: nat, k: Kernel): Slot
    requires i < |l|
  {
    if l[i].installed || l[0].installed || k == Failed then l
    else MoveToHead(SetInstalled(l, i, true), i)
  }

  /** `switch_routes`; the old route is the head. */
  function Switch(l: Slot, i: nat, k: Kernel): Slot
    requires i < |l|
  {
    if !l[0].installed then Install(l, i, k)
    else if k != Done then l
    else MoveToHead(SetInstalled(SetInstalled(l, 0, false), i, true), i)
  }

  /** `metric_to_kernel` distinguishes only finite from infinite. */
  predicate SameKernelMetric(a: int, b: int) { a < INFINITY <==> b < INFINITY }

  /** The kernel refuses the change of metric that an installed route needs. */
  predicate Stuck(r: Route, refmetric: U16, cost: U16, add: U16, k: Kernel)
  {
    r.installed && !SameKernelMetric(r.Metric(), Min((refmetric as int) + cost + add, INFINITY)) && k != Done
  }

  /** `change_route_metric`. */
  function ChangeMetric(r: Route, refmetric: U16, cost: U16, add: U16, k: Kernel): Route
  {
    if Stuck(r, refmetric, cost, add, k) then r else r.(refmetric := refmetric, cost := cost, addMetric := add)
  }

  // ---------- Route selection ----------

  /** `route_feasible`. */
  predicate Feasible(r: Route, sources: SourceTable, now: int)
    requires r.src in sources
  {
    UpdateFeasible(sources[r.src], r.seqno, r.refmetric, now)
  }

  /** The last two parameters of `find_best_route`. */
  datatype Search = Search(feasible: bool, exclude: Exclude)
  datatype Exclude = Nobody | Neighbour(id: RouterId)

  /** What the loop of `find_best_route` asks of a route behind the head. */
  predicate Candidate(r: Route, sources: SourceTable, now: int, q: Search)
    requires r.src in sources
  {
    && !r.Expired(now)
    && (q.feasible ==> Feasible(r, sources, now))
    && (q.exclude.Neighbour? ==> r.neigh != q.exclude.id)
  }

  /**
    `find_best_route`: among the head, taken as it is, and the other candidates,
    the first with the smallest metric.
  */
  function BestFor(l: Slot, sources: SourceTable, now: int, q: Search): (b: nat)
    requires l != [] && SourcesKnown(l, sources)
    ensures b < |l|
    ensures b == 0 || Candidate(l[b], sources, now, q)
    ensures forall j | 0 <= j < |l| && (j == 0 || Candidate(l[j], sources, now, q)) ::
      l[b].Metric() <= l[j].Metric() && (j < b ==> l[b].Metric() < l[j].Metric())
  {
    var n := |l| - 1;
    if n == 0 then 0
    else
      var b := BestFor(l[..n], sources, now, q);
      if Candidate(l[n], sources, now, q) && l[n].Metric() < l[b].Metric() then n else b
  }

  /** The search that `route_changed` and `route_lost` make: feasible routes, no neighbour excluded. */
  const FEASIBLE := Search(true, Nobody)

  predicate Usable(r: Route, sources: SourceTable, now: int)
    requires r.src in sources
  {
    Candidate(r, sources, now, FEASIBLE)
  }

  function Best(l: Slot, sources: SourceTable, now: int): (b: nat)
    requires l != [] && SourcesKnown(l, sources)
    ensures b < |l|
  {
    BestFor(l, sources, now, FEASIBLE)
  }

  /** `consider_route`; `blocked` says that an exported route has precedence (`find_xroute`). */
  function Consider(l: Slot, i: nat, sources: SourceTable, now: int, blocked: bool, k: Kernel): Slot
    requires i < |l| && SourcesKnown(l, sources)
  {
    if l[i].installed || !Feasible(l[i], sources, now) || blocked then l
    else if !l[0].installed then Switch(l, i, k)
    else if l[i].Metric() >= INFINITY then l
    else if l[0].Metric() >= INFINITY || l[0].Metric() >= (l[i].Metric() as int) + 64 then Switch(l, i, k)
    else l
  }

  /** `route_changed`. */
  function RouteChanged(l: Slot, i: nat, oldmetric: U16, sources: SourceTable, now: int, blocked: bool, k: Kernel): Slot
    requires i < |l| && SourcesKnown(l, sources)
  {
    if !l[i].installed then Consider(l, i, sources, now, blocked, k)
    else if l[i].Metric() > oldmetric then
      var b := Best(l, sources, now);
      if l[b].Metric() <= (l[i].Metric() as int) - 96 then Consider(l, b, sources, now, blocked, k) else l
    else l
  }

  /** `route_lost`. */
  function RouteLost(l: Slot, sources: SourceTable, now: int, blocked: bool, k: Kernel): Slot
    requires SourcesKnown(l, sources)
  {
    if l == [] then l else Consider(l, Best(l, sources, now), sources, now, blocked, k)
  }

  // ---------- Reselection: what choosing a route may and may not do ----------

  /** Number of routes of `l` that point to `key`. */
  function CountSrc(l: Slot, key: SourceKey): nat
  {
    if l == [] then 0 else CountSrc(l[1..], key) + if l[0].src == key then 1 else 0
  }

  lemma {:induction false} CountSrcAppend(a: Slot, b: Slot, key: SourceKey)
    ensures CountSrc(a + b, key) == CountSrc(a, key) + CountSrc(b, key)
  {
    if a == [] {
      assert a + b == b;
    } else {
      assert (a + b)[1..] == a[1..] + b;
      CountSrcAppend(a[1..], b, key);
    }
  }

  /** The three-way split of a slot around position `i`. */
  lemma CountSrcSplit(l: Slot, i: nat, key: SourceKey)
    requires i < |l|
    ensures CountSrc(l, key) == CountSrc(l[..i], key) + CountSrc(l[i + 1..], key) + if l[i].src == key then 1 else 0
  {
    assert l == l[..i] + ([l[i]] + l[i + 1..]);
    CountSrcAppend(l[..i], [l[i]] + l[i + 1..], key);
    assert ([l[i]] + l[i + 1..])[1..] == l[i + 1..];
  }

  lemma CountSrcUpdate(l: Slot, i: nat, r: Route, key: SourceKey)
    requires i < |l|
    ensures CountSrc(l[i := r], key) == CountSrc(l, key)
              + (if r.src == key then 1 else 0) - (if l[i].src == key then 1 else 0)
  {
    CountSrcSplit(l, i, key);
    CountSrcSplit(l[i := r], i, key);
    assert l[i := r][..i] == l[..i] && l[i := r][i + 1..] == l[i + 1..];
  }

  lemma {:induction false} CountSrcPositive(l: Slot, i: nat)
    requires i < |l|
    ensures CountSrc(l, l[i].src) > 0
  {
    CountSrcSplit(l, i, l[i].src);
  }

  /** The list with every installed mark cleared. */
  function Strip(l: Slot): (m: Slot)
    ensures |m| == |l| && forall i | 0 <= i < |l| :: m[i] == l[i].(installed := false)
  {
    seq(|l|, i requires 0 <= i < |l| => l[i].(installed := false))
  }

  /** The routes of `m` are those of `l`; only order and the installed marks differ. */
  ghost predicate SameRoutes(l: Slot, m: Slot)
  {
    multiset(Strip(l)) == multiset(Strip(m))
  }

  lemma SameRoutesMember(l: Slot, m: Slot, r: Route) returns (s: Route)
    requires SameRoutes(l, m) && r in m
    ensures s in l && r == s.(installed := r.installed)
  {
    var j :| 0 <= j < |m| && m[j] == r;
    assert Strip(m)[j] in multiset(Strip(m));
    assert Strip(m)[j] in multiset(Strip(l));
    var i :| 0 <= i < |l| && Strip(l)[i] == Strip(m)[j];
    s := l[i];
  }

  /** Removing one route from a list removes it from the multiset. */
  lemma RemoveAt(m: Slot, j: nat)
    requires j < |m|
    ensures multiset(m) == multiset(m[..j] + m[j + 1..]) + multiset{m[j]}
  {
    assert m == m[..j] + [m[j]] + m[j + 1..];
  }

  lemma CountSrcRemove(m: Slot, j: nat, key: SourceKey)
    requires j < |m|
    ensures CountSrc(m, key) == CountSrc(m[..j] + m[j + 1..], key) + if m[j].src == key then 1 else 0
  {
    CountSrcSplit(m, j, key);
    CountSrcAppend(m[..j], m[j + 1..], key);
  }

  /** The head of one arrangement can be taken out of the other. */
  lemma TakeOut(l: Slot, m: Slot) returns (j: nat)
    requires multiset(l) == multiset(m) && l != []
    ensures j < |m| && m[j] == l[0] && multiset(l[1..]) == multiset(m[..j] + m[j + 1..])
  {
    assert l[0] in multiset(m);
    j :| 0 <= j < |m| && m[j] == l[0];
    RemoveAt(m, j);
    assert l == [l[0]] + l[1..];
    assert multiset(l[1..]) == multiset(l) - multiset{l[0]};
  }

  lemma {:induction false} PermutationCount(l: Slot, m: Slot, key: SourceKey)
    requires multiset(l) == multiset(m)
    ensures CountSrc(l, key) == CountSrc(m, key)
    decreases |l|
  {
    if l == [] {
      assert |multiset(m)| == 0;
    } else {
      var j := TakeOut(l, m);
      PermutationCount(l[1..], m[..j] + m[j + 1..], key);
      CountSrcRemove(m, j, key);
    }
  }

  lemma {:induction false} StripCount(l: Slot, key: SourceKey)
    ensures CountSrc(Strip(l), key) == CountSrc(l, key)
  {
    if l != [] {
      assert Strip(l)[1..] == Strip(l[1..]);
      StripCount(l[1..], key);
    }
  }

  lemma SameRoutesCount(l: Slot, m: Slot, key: SourceKey)
    requires SameRoutes(l, m)
    ensures CountSrc(l, key) == CountSrc(m, key)
  {
    PermutationCount(Strip(l), Strip(m), key);
    StripCount(l, key);
    StripCount(m, key);
  }

  lemma SameRoutesKnown(l: Slot, m: Slot, sources: SourceTable)
    requires SameRoutes(l, m) && SourcesKnown(l, sources)
    ensures SourcesKnown(m, sources)
  {
    forall r <- m ensures r.src in sources {
      var s := SameRoutesMember(l, m, r);
    }
  }

  /** `m` is `l` after route selection: a newly installed route is feasible at that moment. */
  ghost predicate Reselected(l: Slot, m: Slot, sources: SourceTable, now: int)
  {
    && SlotOk(m)
    && SameRoutes(l, m)
    && SourcesKnown(m, sources)
    && (HeadInstalled(m) ==> (HeadInstalled(l) && m[0] == l[0]) || Feasible(m[0], sources, now))
  }

  lemma MoveToHeadSame(l: Slot, i: nat)
    requires i < |l|
    ensures SameRoutes(l, MoveToHead(l, i))
  {
    var a, s := Strip(l), Strip(MoveToHead(l, i));
    assert s == [a[i]] + (a[..i] + a[i + 1..]);
    RemoveAt(a, i);
  }

  /** Where route `j` of the moved list was before. */
  function Origin(i: nat, j: nat): nat { if j == 0 then i else if j <= i then j - 1 else j }

  lemma MovedFrom(l: Slot, i: nat, j: nat)
    requires i < |l| && j < |l|
    ensures Origin(i, j) < |l| && MoveToHead(l, i)[j] == l[Origin(i, j)]
  {
  }

  lemma MoveKeepsKeys(l: Slot, i: nat)
    requires i < |l| && DistinctKeys(l)
    ensures DistinctKeys(MoveToHead(l, i))
  {
    var m := MoveToHead(l, i);
    forall j, k | 0 <= j < k < |m| ensures m[j].Key() != m[k].Key() {
      MovedFrom(l, i, j);
      MovedFrom(l, i, k);
    }
  }

  lemma MoveKeepsDest(l: Slot, i: nat)
    requires i < |l| && SameDest(l)
    ensures SameDest(MoveToHead(l, i))
  {
    var m := MoveToHead(l, i);
    forall j | 0 <= j < |m| ensures m[j].src.dest == m[0].src.dest {
      MovedFrom(l, i, j);
    }
  }

  /** Lists that agree route by route in source and key. */
  lemma AlikeOk(l: Slot, m: Slot)
    requires |l| == |m| && SameDest(l) && DistinctKeys(l)
    requires forall i | 0 <= i < |l| :: m[i].src.dest == l[i].src.dest && m[i].Key() == l[i].Key()
    ensures SameDest(m) && DistinctKeys(m)
  {
    forall i, j | 0 <= i < j < |m| ensures m[i].Key() != m[j].Key() {
      assert l[i].Key() != l[j].Key();
    }
  }

  lemma RemoveOk(l: Slot, i: nat)
    requires SlotOk(l) && i < |l|
    ensures SlotOk(l[..i] + l[i + 1..])
  {
    var m := l[..i] + l[i + 1..];
    assert forall j | 0 <= j < |m| :: m[j] == l[if j < i then j else j + 1];
    forall j, k | 0 <= j < k < |m| ensures m[j].Key() != m[k].Key() {
      assert l[if j < i then j else j + 1].Key() != l[if k < i then k else k + 1].Key();
    }
  }

  lemma MoveToHeadOk(l: Slot, i: nat)
    requires i < |l| && SameDest(l) && DistinctKeys(l)
    requires forall j | 0 <= j < |l| :: j != i ==> !l[j].installed
    ensures SlotOk(MoveToHead(l, i))
  {
    MoveKeepsKeys(l, i);
    MoveKeepsDest(l, i);
    forall j | 0 < j < |l| ensures !MoveToHead(l, i)[j].installed { MovedFrom(l, i, j); }
  }

  /** The list that a successful install or switch of route `i` leaves. */
  function Installed(l: Slot, i: nat): Slot
    requires i < |l|
  {
    MoveToHead(SetInstalled(SetInstalled(l, 0, false), i, true), i)
  }

  lemma InstalledOk(l: Slot, i: nat)
    requires i < |l| && SlotOk(l)
    ensures SlotOk(Installed(l, i)) && SameRoutes(l, Installed(l, i))
  {
    var l1 := SetInstalled(l, 0, false);
    var l2 := SetInstalled(l1, i, true);
    assert Strip(l2) == Strip(l);
    MoveToHeadSame(l2, i);
    AlikeOk(l, l2);
    MoveToHeadOk(l2, i);
  }

  lemma SwitchReselects(l: Slot, i: nat, sources: SourceTable, now: int, k: Kernel)
    requires i < |l| && SlotOk(l) && SourcesKnown(l, sources)
    requires !l[i].installed && Feasible(l[i], sources, now)
    ensures Reselected(l, Switch(l, i, k), sources, now)
  {
    InstalledOk(l, i);
    SameRoutesKnown(l, Installed(l, i), sources);
    assert Switch(l, i, k) == l || Switch(l, i, k) == Installed(l, i) by {
      assert !l[0].installed ==> SetInstalled(l, 0, false) == l;
    }
  }

  lemma ConsiderReselects(l: Slot, i: nat, sources: SourceTable, now: int, blocked: bool, k: Kernel)
    requires i < |l| && SlotOk(l) && SourcesKnown(l, sources)
    ensures Reselected(l, Consider(l, i, sources, now, blocked, k), sources, now)
  {
    if !l[i].installed && Feasible(l[i], sources, now) {
      SwitchReselects(l, i, sources, now, k);
    }
  }

  lemma RouteChangedReselects(l: Slot, i: nat, oldmetric: U16, sources: SourceTable, now: int, blocked: bool, k: Kernel)
    requires i < |l| && SlotOk(l) && SourcesKnown(l, sources)
    ensures Reselected(l, RouteChanged(l, i, oldmetric, sources, now, blocked, k), sources, now)
  {
    ConsiderReselects(l, if l[i].installed then Best(l, sources, now) else i, sources, now, blocked, k);
  }

  lemma RouteLostReselects(l: Slot, sources: SourceTable, now: int, blocked: bool, k: Kernel)
    requires SlotOk(l) && SourcesKnown(l, sources)
    ensures Reselected(l, RouteLost(l, sources, now, blocked, k), sources, now)
  {
    if l != [] {
      ConsiderReselects(l, Best(l, sources, now), sources, now, blocked, k);
    }
  }
}

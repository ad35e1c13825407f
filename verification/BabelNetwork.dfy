/**
  A network of Babel routers as a transition system, for one destination and all
  of its sources.  Every step is a whole operation of one router (route.c,
  source.c, flushupdates in message.c) or an act of the network: messages may be
  delivered late, repeatedly, out of order, or never.
*/
module BabelNetwork {
  import opened Octets
  import opened Distance
  import opened Sources
  import opened RouteSlot
  import opened RouteUpdate
  import opened RouteAdoption

  datatype Msg = Msg(from: RouterId, nexthop: Prefix, interval: U16, key: SourceKey, d: Dist)

  /** One router: its sources and routes for the destination, its clock, its own seqno. */
  datatype Node = Node(local: Local, now: int, myseqno: U16)

  datatype Net = Net(dest: Destination, nodes: map<RouterId, Node>, live: set<Msg>)
  {
    function Slot(a: RouterId): Slot requires a in nodes { nodes[a].local.slot }
    function Sources(a: RouterId): SourceTable requires a in nodes { nodes[a].local.sources }

    /** The feasibility distance of `key` at router `a`. */
    function Fd(a: RouterId, key: SourceKey): Dist
      requires a in nodes && key in Sources(a)
    {
      Sources(a)[key].Fd()
    }
  }

  datatype Step =
    | Deliver(a: RouterId, m: Msg, env: Env)            // update_route
    | Remetric(a: RouterId, i: nat, env: Env)           // update_route_metric: link cost change or expiry
    | Retract(a: RouterId, i: nat, env: Env)            // retract_neighbour_routes, one route
    | Flush(a: RouterId, i: nat, env: Env)              // flush_route
    // flushupdates, installed route
    | Advertise(a: RouterId, factor: nat, interferes: bool, filter: U16, nexthop: Prefix, interval: U16)
    // flushupdates, exported route or retraction
    | Announce(a: RouterId, metric: U16, nexthop: Prefix, interval: U16)
    | Bump(a: RouterId)                                 // update_myseqno
    | Tick(a: RouterId, now: int)
    | Lose(m: Msg)

  function UpdateOf(m: Msg): Update
  {
    Update(m.key, m.d.seqno, m.d.metric, m.interval, m.from, m.nexthop)
  }

  /** The router's own id and clock, a stored link cost of at least 1; the kernel may answer anything. */
  predicate EnvOk(net: Net, a: RouterId, env: Env)
    requires a in net.nodes
  {
    env.myid == a && env.now == net.nodes[a].now && env.cost >= 1
  }

  /** Router `a` runs an operation on its route `i`. */
  ghost predicate Operates(net: Net, a: RouterId, i: nat, env: Env)
  {
    a in net.nodes && EnvOk(net, a, env) && LocalOk(net.nodes[a].local, net.dest) && i < |net.Slot(a)|
  }

  ghost predicate Enabled(net: Net, s: Step)
  {
    match s
    case Deliver(a, m, env) =>
      && a in net.nodes && m in net.live && m.key.dest == net.dest
      && EnvOk(net, a, env) && LocalOk(net.nodes[a].local, net.dest)
    case Remetric(a, i, env) => Operates(net, a, i, env)
    case Retract(a, i, env) => Operates(net, a, i, env)
    case Flush(a, i, env) => Operates(net, a, i, env)
    case Advertise(a, _, _, _, _, _) =>
      a in net.nodes && HeadInstalled(net.Slot(a)) && net.Slot(a)[0].src in net.Sources(a)
    case Announce(a, _, _, _) => a in net.nodes
    case Bump(a) => a in net.nodes
    case Tick(a, _) => a in net.nodes
    case Lose(m) => true
  }

  function SetLocal(net: Net, a: RouterId, st: Local): Net
    requires a in net.nodes
  {
    net.(nodes := net.nodes[a := net.nodes[a].(local := st)])
  }

  /** The metric that `flushupdates` computes for an installed route. */
  function Advertised(r: Route, factor: nat, interferes: bool): U16
  {
    if interferes then r.Metric() else r.MetricNoninterfering(factor)
  }

  /** `really_send_update` followed by `update_source`. */
  function AdvertiseNet(net: Net, a: RouterId, metric: U16, filter: U16, nexthop: Prefix, interval: U16): Net
    requires a in net.nodes && HeadInstalled(net.Slot(a)) && net.Slot(a)[0].src in net.Sources(a)
  {
    var st, r := net.nodes[a].local, net.Slot(a)[0];
    var src := UpdateSource(st.sources[r.src], r.seqno, metric, net.nodes[a].now);
    var sent := Msg(a, nexthop, interval, r.src, Dist(r.seqno, Min((metric as int) + filter, INFINITY)));
    var net' := SetLocal(net, a, st.(sources := st.sources[r.src := src]));
    if filter >= INFINITY then net' else net'.(live := net'.live + {sent})
  }

  ghost function Next(net: Net, s: Step): Net
    requires Enabled(net, s)
  {
    match s
    case Deliver(a, m, env) => SetLocal(net, a, UpdateRoute(net.nodes[a].local, UpdateOf(m), env))
    case Remetric(a, i, env) => SetLocal(net, a, UpdateRouteMetric(net.nodes[a].local, i, env))
    case Retract(a, i, env) => SetLocal(net, a, RetractRoute(net.nodes[a].local, i, net.Slot(a)[i].seqno, env))
    case Flush(a, i, env) =>
      CountSrcPositive(net.Slot(a), i);
      SetLocal(net, a, FlushRoute(net.nodes[a].local, i, env))
    case Advertise(a, factor, interferes, filter, nexthop, interval) =>
      AdvertiseNet(net, a, Advertised(net.Slot(a)[0], factor, interferes), filter, nexthop, interval)
    case Announce(a, metric, nexthop, interval) =>
      net.(live := net.live + {Msg(a, nexthop, interval, SourceKey(a, net.dest), Dist(net.nodes[a].myseqno, metric))})
    case Bump(a) => net.(nodes := net.nodes[a := net.nodes[a].(myseqno := SeqnoPlus(net.nodes[a].myseqno, 1))])
    case Tick(a, now) => net.(nodes := net.nodes[a := net.nodes[a].(now := now)])
    case Lose(m) => net.(live := net.live - {m})
  }

  // ---------- Hypotheses about every state of a run ----------

  /** No source has passed SOURCE_GC_TIME. */
  ghost predicate Fresh(net: Net)
  {
    forall a <- net.nodes, key | key in net.Sources(a) :: !Stale(net.Sources(a)[key], net.nodes[a].now)
  }

  /** The seqnos of `key` that are still alive lie in the half circle from `base`. */
  ghost predicate WindowFor(net: Net, key: SourceKey, base: U16)
  {
    && (forall a <- net.nodes | key in net.Sources(a) :: InWindow(base, net.Fd(a, key).seqno))
    && (forall a <- net.nodes, r <- net.Slot(a) | r.src == key && r.refmetric < INFINITY :: InWindow(base, r.seqno))
    && (forall m <- net.live | m.key == key && m.d.metric < INFINITY :: InWindow(base, m.d.seqno))
  }

  ghost predicate HasWindow(net: Net, key: SourceKey)
  {
    exists base :: WindowFor(net, key, base)
  }

  ghost predicate Windowed(net: Net)
  {
    forall key :: HasWindow(net, key)
  }

  /**
    What a step must not run into: the branch that revives a retracted route, the failing
    insertion that leaks a count, and a refused change of metric that mixes two distances.
  */
  ghost predicate Guarded(net: Net, s: Step)
    requires Enabled(net, s)
  {
    match s
    case Deliver(a, m, env) =>
      var st, u := net.nodes[a].local, UpdateOf(m);
      !Resurrects(st, u, env) && !Leaks(st, u, env) && !Mixes(st, u, env)
    case Remetric(a, i, env) => !RenumbersExpired(net.nodes[a].local, i, env)
    case _ => true
  }

  // ---------- The invariant ----------

  /** `b` has itself advertised, or could have, a distance for `key` at least as good as `d`. */
  ghost predicate Backed(net: Net, b: RouterId, key: SourceKey, d: Dist)
  {
    b in net.nodes && key in net.Sources(b) && NoWorse(net.Fd(b, key), d)
  }

  ghost predicate RouteInv(net: Net, a: RouterId, r: Route)
  {
    && r.src.id != a
    && r.cost >= 1
    && (r.refmetric < INFINITY && r.src.id != r.neigh ==> Backed(net, r.neigh, r.src, r.Told()))
  }

  ghost predicate MsgInv(net: Net, m: Msg)
  {
    && m.key.dest == net.dest
    && (m.d.metric < INFINITY && m.key.id != m.from ==> Backed(net, m.from, m.key, m.d))
  }

  /** The router forwards for source `key` to `b`: an installed route that is not retracted. */
  ghost predicate Forwards(net: Net, a: RouterId, key: SourceKey, b: RouterId)
  {
    && a in net.nodes && HeadInstalled(net.Slot(a))
    && net.Slot(a)[0].src == key && net.Slot(a)[0].neigh == b && net.Slot(a)[0].refmetric < INFINITY
  }

  /** The successor's feasibility distance is strictly better. */
  ghost predicate Descends(net: Net, a: RouterId, key: SourceKey, b: RouterId)
  {
    && a in net.nodes && b in net.nodes && key in net.Sources(a) && key in net.Sources(b)
    && Better(net.Fd(b, key), net.Fd(a, key))
  }

  ghost predicate Inv(net: Net)
  {
    && (forall a <- net.nodes :: LocalOk(net.nodes[a].local, net.dest))
    && (forall a <- net.nodes, r <- net.Slot(a) :: RouteInv(net, a, r))
    && (forall m <- net.live :: MsgInv(net, m))
    && (forall a, key, b | Forwards(net, a, key, b) && key.id != b :: Descends(net, a, key, b))
  }

  ghost predicate Init(net: Net)
  {
    net.live == {} && forall a <- net.nodes :: net.nodes[a].local == Local(map[], [])
  }

  // ---------- Loop freedom of one state ----------

  ghost predicate Path(net: Net, key: SourceKey, p: seq<RouterId>)
  {
    forall i | 0 <= i < |p| - 1 :: Forwards(net, p[i], key, p[i + 1])
  }

  /** No sequence of next hops for one source returns to where it started. */
  ghost predicate LoopFree(net: Net)
  {
    forall key, p | |p| >= 2 && Path(net, key, p) :: p[0] != p[|p| - 1]
  }

  lemma EdgeDescends(net: Net, key: SourceKey, a: RouterId, b: RouterId, c: RouterId)
    requires Inv(net) && Forwards(net, a, key, b) && Forwards(net, b, key, c)
    ensures Descends(net, a, key, b)
  {
    assert RouteInv(net, b, net.Slot(b)[0]);
  }

  /** Along a path whose end still forwards, feasibility distances strictly improve. */
  lemma {:induction false} PathDescends(net: Net, key: SourceKey, p: seq<RouterId>, c: RouterId, base: U16)
    requires Inv(net) && WindowFor(net, key, base)
    requires |p| >= 2 && Path(net, key, p) && Forwards(net, p[|p| - 1], key, c)
    ensures Descends(net, p[0], key, p[|p| - 1])
    decreases |p|
  {
    var n := |p| - 1;
    assert Forwards(net, p[n - 1], key, p[n]);
    EdgeDescends(net, key, p[n - 1], p[n], c);
    if n > 1 {
      assert Path(net, key, p[..n]) by {
        forall i | 0 <= i < n - 1 ensures Forwards(net, p[..n][i], key, p[..n][i + 1]) {
          assert Forwards(net, p[i], key, p[i + 1]);
        }
      }
      PathDescends(net, key, p[..n], p[n], base);
      BetterTransitive(base, net.Fd(p[n], key), net.Fd(p[n - 1], key), net.Fd(p[0], key));
    }
  }

  lemma InvLoopFree(net: Net)
    requires Inv(net) && Windowed(net)
    ensures LoopFree(net)
  {
    forall key, p | |p| >= 2 && Path(net, key, p) ensures p[0] != p[|p| - 1] {
      if p[0] == p[|p| - 1] {
        assert HasWindow(net, key);
        var base :| WindowFor(net, key, base);
        assert Forwards(net, p[0], key, p[1]);
        PathDescends(net, key, p, p[1], base);
        BetterTotal(base, net.Fd(p[0], key), net.Fd(p[0], key));
      }
    }
  }

  // ---------- Operations of one router that leave its feasibility distances alone ----------

  lemma LocalStepKeepsRoutes(net: Net, a: RouterId, st': Local, net': Net, us: set<Update>)
    requires Inv(net) && a in net.nodes && net' == SetLocal(net, a, st')
    requires LocalStep(net.nodes[a].local, st', net.nodes[a].now, us)
    requires forall u <- us :: u.key.id != a && exists m <- net.live :: u == UpdateOf(m)
    ensures forall c <- net'.nodes, r <- net'.Slot(c) :: RouteInv(net', c, r)
    ensures forall m <- net'.live :: MsgInv(net', m)
  {
    forall c <- net'.nodes, r <- net'.Slot(c) ensures RouteInv(net', c, r) {
      if c != a {
        assert RouteInv(net, c, r);
      } else if Inherited(r, net.Slot(a)) {
        var r0 :| r0 in net.Slot(a) && r.src == r0.src && r.neigh == r0.neigh
            && (r.refmetric >= INFINITY || r.Told() == r0.Told());
        assert RouteInv(net, a, r0);
      } else {
        var u :| u in us && ToldBy(r, u);
        var m :| m in net.live && u == UpdateOf(m);
        assert MsgInv(net, m);
      }
    }
    forall m <- net'.live ensures MsgInv(net', m) {
      assert MsgInv(net, m);
    }
  }

  lemma LocalStepKeepsEdges(net: Net, a: RouterId, st': Local, net': Net, c: RouterId, key: SourceKey, b: RouterId,
      us: set<Update>)
    requires Inv(net) && Fresh(net') && Windowed(net')
    requires a in net.nodes && net' == SetLocal(net, a, st')
    requires LocalStep(net.nodes[a].local, st', net.nodes[a].now, us)
    requires forall x <- net'.nodes, r <- net'.Slot(x) :: RouteInv(net', x, r)
    requires Forwards(net', c, key, b) && key.id != b
    ensures Descends(net', c, key, b)
  {
    if c != a || (Forwards(net, a, key, b)) {
      assert Forwards(net, c, key, b);
      assert Descends(net, c, key, b);
    } else {
      var h := net'.Slot(a)[0];
      assert RouteInv(net', a, h);
      assert Feasible(h, net'.Sources(a), net.nodes[a].now);
      assert HasWindow(net', key);
      var base :| WindowFor(net', key, base);
      BetterTransitive(base, net'.Fd(b, key), h.Told(), net'.Fd(a, key));
    }
  }

  lemma LocalStepKeepsInv(net: Net, a: RouterId, st': Local, net': Net, us: set<Update>)
    requires Inv(net) && Fresh(net') && Windowed(net')
    requires a in net.nodes && net' == SetLocal(net, a, st')
    requires LocalOk(st', net.dest)
    requires LocalStep(net.nodes[a].local, st', net.nodes[a].now, us)
    requires forall u <- us :: u.key.id != a && exists m <- net.live :: u == UpdateOf(m)
    ensures Inv(net')
  {
    LocalStepKeepsRoutes(net, a, st', net', us);
    forall c, key, b | Forwards(net', c, key, b) && key.id != b ensures Descends(net', c, key, b) {
      LocalStepKeepsEdges(net, a, st', net', c, key, b, us);
    }
  }

  // ---------- Advertising: the one operation that moves a feasibility distance ----------

  /** Every advertised finite metric is larger than the metric that was heard. */
  lemma AdvertisedExceeds(r: Route, factor: nat, interferes: bool)
    requires r.cost >= 1 && Advertised(r, factor, interferes) < INFINITY
    ensures r.refmetric < Advertised(r, factor, interferes)
  {
  }

  /** A router's distance for one source improved to `fd`; nothing else changed but new messages. */
  ghost predicate Improved(net: Net, net': Net, a: RouterId, key: SourceKey)
  {
    && net'.dest == net.dest && net'.nodes.Keys == net.nodes.Keys && a in net.nodes && key in net.Sources(a)
    && (forall b <- net.nodes :: net'.Slot(b) == net.Slot(b) && net'.Sources(b).Keys == net.Sources(b).Keys)
    && (forall b <- net.nodes, k | k in net.Sources(b) && (b != a || k != key) :: net'.Fd(b, k) == net.Fd(b, k))
    && NoWorse(net'.Fd(a, key), net.Fd(a, key))
  }

  lemma ImprovedKeepsBacked(net: Net, net': Net, a: RouterId, key: SourceKey, base: U16, b: RouterId, k: SourceKey,
      d: Dist)
    requires Improved(net, net', a, key) && Backed(net, b, k, d)
    requires InWindow(base, net'.Fd(a, key).seqno) && InWindow(base, net.Fd(a, key).seqno)
    requires k == key ==> InWindow(base, d.seqno)
    ensures Backed(net', b, k, d)
  {
    if b == a && k == key {
      BetterTransitive(base, net'.Fd(a, key), net.Fd(a, key), d);
    }
  }

  lemma ImprovedKeepsRoutes(net: Net, net': Net, a: RouterId, key: SourceKey, base: U16)
    requires Inv(net) && Improved(net, net', a, key) && WindowFor(net, key, base)
    requires InWindow(base, net'.Fd(a, key).seqno)
    ensures forall c <- net'.nodes, r <- net'.Slot(c) :: RouteInv(net', c, r)
    ensures forall m <- net.live :: MsgInv(net', m)
  {
    forall c <- net'.nodes, r <- net'.Slot(c) ensures RouteInv(net', c, r) {
      assert RouteInv(net, c, r);
      if r.refmetric < INFINITY && r.src.id != r.neigh {
        ImprovedKeepsBacked(net, net', a, key, base, r.neigh, r.src, r.Told());
      }
    }
    forall m <- net.live ensures MsgInv(net', m) {
      assert MsgInv(net, m);
      if m.d.metric < INFINITY && m.key.id != m.from {
        ImprovedKeepsBacked(net, net', a, key, base, m.from, m.key, m.d);
      }
    }
  }

  lemma ImprovedKeepsEdges(net: Net, net': Net, a: RouterId, key: SourceKey, base: U16, c: RouterId, k: SourceKey,
      b: RouterId)
    requires Inv(net) && Improved(net, net', a, key) && WindowFor(net, key, base)
    requires InWindow(base, net'.Fd(a, key).seqno)
    requires Forwards(net', c, k, b) && k.id != b
    requires net'.Fd(a, key) == net.Fd(a, key)
          || (HeadInstalled(net.Slot(a)) && net.Slot(a)[0].src == key && Better(net.Slot(a)[0].Told(), net'.Fd(a, key)))
    ensures Descends(net', c, k, b)
  {
    assert Forwards(net, c, k, b);
    assert Descends(net, c, k, b);
    if k == key {
      if b == a {
        BetterTransitive(base, net'.Fd(a, key), net.Fd(a, key), net.Fd(c, key));
        BetterTotal(base, net.Fd(a, key), net.Fd(a, key));
      } else if c == a && net'.Fd(a, key) != net.Fd(a, key) {
        var h := net.Slot(a)[0];
        assert RouteInv(net, a, h);
        BetterTransitive(base, net.Fd(b, key), h.Told(), net'.Fd(a, key));
      }
    }
  }

  ghost predicate CanAdvertise(net: Net, a: RouterId, metric: U16, base: U16)
  {
    && Inv(net) && Fresh(net) && a in net.nodes && HeadInstalled(net.Slot(a)) && net.Slot(a)[0].src in net.Sources(a)
    && WindowFor(net, net.Slot(a)[0].src, base)
    && (metric < INFINITY ==> net.Slot(a)[0].refmetric < metric)
  }

  /** The advertiser's new distance, in terms of the old one and of what was announced. */
  lemma AdvertisedFd(net: Net, a: RouterId, metric: U16, base: U16)
    requires CanAdvertise(net, a, metric, base)
    ensures var h := net.Slot(a)[0];
      var fd := UpdateSource(net.Sources(a)[h.src], h.seqno, metric, net.nodes[a].now).Fd();
      && InWindow(base, fd.seqno) && NoWorse(fd, net.Fd(a, h.src))
      && (metric < INFINITY ==> InWindow(base, h.seqno) && NoWorse(fd, Dist(h.seqno, metric)))
      && (fd == net.Fd(a, h.src) || Better(h.Told(), fd))
  {
    var h := net.Slot(a)[0];
    UpdateSourceBest(base, net.Sources(a)[h.src], h.seqno, metric, net.nodes[a].now);
  }

  /** What an advertisement does to the advertiser's own distance. */
  lemma AdvertiseImproves(net: Net, a: RouterId, metric: U16, filter: U16, nexthop: Prefix, interval: U16, base: U16)
    requires CanAdvertise(net, a, metric, base)
    ensures var h, net' := net.Slot(a)[0], AdvertiseNet(net, a, metric, filter, nexthop, interval);
      && Improved(net, net', a, h.src)
      && InWindow(base, net'.Fd(a, h.src).seqno)
      && (metric < INFINITY ==> InWindow(base, h.seqno) && NoWorse(net'.Fd(a, h.src), Dist(h.seqno, metric)))
      && (net'.Fd(a, h.src) == net.Fd(a, h.src) || Better(h.Told(), net'.Fd(a, h.src)))
  {
    AdvertisedFd(net, a, metric, base);
    AdvertiseShape(net, a, metric, filter, nexthop, interval);
  }

  /** Which parts of the network an advertisement touches. */
  lemma AdvertiseShape(net: Net, a: RouterId, metric: U16, filter: U16, nexthop: Prefix, interval: U16)
    requires a in net.nodes && HeadInstalled(net.Slot(a)) && net.Slot(a)[0].src in net.Sources(a)
    ensures var h, net' := net.Slot(a)[0], AdvertiseNet(net, a, metric, filter, nexthop, interval);
      && net'.dest == net.dest && net'.nodes.Keys == net.nodes.Keys
      && (forall b <- net.nodes :: net'.Slot(b) == net.Slot(b) && net'.Sources(b).Keys == net.Sources(b).Keys)
      && (forall b <- net.nodes, k | k in net.Sources(b) && (b != a || k != h.src) :: net'.Fd(b, k) == net.Fd(b, k))
      && net'.Fd(a, h.src) == UpdateSource(net.Sources(a)[h.src], h.seqno, metric, net.nodes[a].now).Fd()
  {
  }

  lemma AdvertiseLocalOk(net: Net, a: RouterId, metric: U16, filter: U16, nexthop: Prefix, interval: U16, base: U16)
    requires CanAdvertise(net, a, metric, base)
    ensures var net' := AdvertiseNet(net, a, metric, filter, nexthop, interval);
      forall c <- net'.nodes :: LocalOk(net'.nodes[c].local, net.dest)
  {
  }

  lemma AdvertiseBacked(net: Net, a: RouterId, metric: U16, filter: U16, nexthop: Prefix, interval: U16, base: U16,
      m: Msg)
    requires CanAdvertise(net, a, metric, base)
    requires m in AdvertiseNet(net, a, metric, filter, nexthop, interval).live && m !in net.live
    ensures MsgInv(AdvertiseNet(net, a, metric, filter, nexthop, interval), m)
  {
    var h := net.Slot(a)[0];
    AdvertiseImproves(net, a, metric, filter, nexthop, interval, base);
    if m.d.metric < INFINITY {
      assert NoWorse(Dist(h.seqno, metric), m.d);
      BetterTransitive(base, AdvertiseNet(net, a, metric, filter, nexthop, interval).Fd(a, h.src),
          Dist(h.seqno, metric), m.d);
    }
  }

  lemma AdvertiseKeepsInv(net: Net, a: RouterId, metric: U16, filter: U16, nexthop: Prefix, interval: U16, base: U16)
    requires CanAdvertise(net, a, metric, base)
    ensures Inv(AdvertiseNet(net, a, metric, filter, nexthop, interval))
  {
    var net', key := AdvertiseNet(net, a, metric, filter, nexthop, interval), net.Slot(a)[0].src;
    AdvertiseImproves(net, a, metric, filter, nexthop, interval, base);
    AdvertiseLocalOk(net, a, metric, filter, nexthop, interval, base);
    ImprovedKeepsRoutes(net, net', a, key, base);
    forall c, k, b | Forwards(net', c, k, b) && k.id != b ensures Descends(net', c, k, b) {
      ImprovedKeepsEdges(net, net', a, key, base, c, k, b);
    }
    forall m <- net'.live ensures MsgInv(net', m) {
      if m !in net.live { AdvertiseBacked(net, a, metric, filter, nexthop, interval, base, m); }
    }
  }

  // ---------- Every step, every run ----------

  lemma QuietKeepsInv(net: Net, net': Net)
    requires Inv(net) && net'.dest == net.dest && net'.nodes.Keys == net.nodes.Keys
    requires forall a <- net.nodes :: net'.nodes[a].local == net.nodes[a].local
    requires forall m <- net'.live :: m in net.live || (m.key.dest == net.dest && m.key.id == m.from)
    ensures Inv(net')
  {
    forall c <- net'.nodes, r <- net'.Slot(c) ensures RouteInv(net', c, r) { assert RouteInv(net, c, r); }
    forall m <- net'.live ensures MsgInv(net', m) { if m in net.live { assert MsgInv(net, m); } }
    forall c, k, b | Forwards(net', c, k, b) && k.id != b ensures Descends(net', c, k, b) {
      assert Forwards(net, c, k, b);
      assert Descends(net, c, k, b);
    }
  }

  lemma CostedNode(net: Net, a: RouterId)
    requires Inv(net) && a in net.nodes
    ensures Costed(net.Slot(a))
  {
    forall r <- net.Slot(a) ensures r.cost >= 1 { assert RouteInv(net, a, r); }
  }

  lemma LocalStepsKeepInv(net: Net, s: Step)
    requires Inv(net) && Enabled(net, s) && Guarded(net, s)
    requires s.Deliver? || s.Remetric? || s.Retract? || s.Flush?
    requires Fresh(Next(net, s)) && Windowed(Next(net, s))
    ensures Inv(Next(net, s))
  {
    var a, net' := s.a, Next(net, s);
    var st, st' := net.nodes[a].local, net'.nodes[a].local;
    CostedNode(net, a);
    var us: set<Update> := {};
    match s {
      case Deliver(_, m, env) =>
        UpdateRouteOk(st, UpdateOf(m), env);
        UpdateRouteStep(st, UpdateOf(m), env);
        us := if m.key.id == a then {} else {UpdateOf(m)};
      case Remetric(_, i, env) =>
        UpdateRouteMetricOk(st, i, env, net.dest);
        UpdateRouteMetricStep(st, i, env, net.dest);
      case Retract(_, i, env) =>
        RetractRouteOk(st, i, st.slot[i].seqno, env, net.dest);
        RetractRouteStep(st, i, st.slot[i].seqno, env, net.dest);
      case Flush(_, i, env) =>
        FlushRouteOk(st, i, env, net.dest);
        FlushRouteStep(st, i, env, net.dest);
    }
    LocalStepKeepsInv(net, a, st', net', us);
  }

  lemma StepKeepsInv(net: Net, s: Step)
    requires Inv(net) && Fresh(net) && Windowed(net) && Enabled(net, s) && Guarded(net, s)
    requires Fresh(Next(net, s)) && Windowed(Next(net, s))
    ensures Inv(Next(net, s))
  {
    if s.Deliver? || s.Remetric? || s.Retract? || s.Flush? {
      LocalStepsKeepInv(net, s);
    } else if s.Advertise? {
      var h := net.Slot(s.a)[0];
      var metric := Advertised(h, s.factor, s.interferes);
      assert RouteInv(net, s.a, h) && HasWindow(net, h.src);
      if metric < INFINITY { AdvertisedExceeds(h, s.factor, s.interferes); }
      var base :| WindowFor(net, h.src, base);
      AdvertiseKeepsInv(net, s.a, metric, s.filter, s.nexthop, s.interval, base);
    } else {
      QuietKeepsInv(net, Next(net, s));
    }
  }

  /** A run: states and the steps between them, each state inside the protocol's assumptions. */
  ghost predicate Run(nets: seq<Net>, steps: seq<Step>)
  {
    && |nets| == |steps| + 1 && Init(nets[0])
    && (forall i | 0 <= i < |nets| :: Fresh(nets[i]) && Windowed(nets[i]))
    && (forall i | 0 <= i < |steps| :: Enabled(nets[i], steps[i]) && nets[i + 1] == Next(nets[i], steps[i]))
  }

  ghost predicate GuardedRun(nets: seq<Net>, steps: seq<Step>)
    requires Run(nets, steps)
  {
    forall i | 0 <= i < |steps| :: Guarded(nets[i], steps[i])
  }

  lemma {:induction false} RunKeepsInv(nets: seq<Net>, steps: seq<Step>, i: nat)
    requires Run(nets, steps) && GuardedRun(nets, steps) && i < |nets|
    ensures Inv(nets[i])
  {
    if i > 0 {
      RunKeepsInv(nets, steps, i - 1);
      assert Guarded(nets[i - 1], steps[i - 1]);
      StepKeepsInv(nets[i - 1], steps[i - 1]);
    }
  }

  /** In every state of every guarded run, forwarding for a source never loops. */
  lemma BabelIsLoopFree(nets: seq<Net>, steps: seq<Step>, i: nat)
    requires Run(nets, steps) && GuardedRun(nets, steps) && i < |nets|
    ensures LoopFree(nets[i])
  {
    RunKeepsInv(nets, steps, i);
    InvLoopFree(nets[i]);
  }
}

/**
  The run that the unguarded code admits: three routers, one source, and in the
  end A forwards to B and B to A.  The step at fault is the last one, where
  `update_route` lets an unfeasible update revive A's retracted, installed route.
*/
module LoopExample {
  import opened Octets
  import opened Distance
  import opened Sources
  import opened RouteSlot
  import opened RouteUpdate
  import opened RouteAdoption
  import opened BabelNetwork

  const O: RouterId := [0, 0, 0, 0, 0, 0, 0, 1]
  const A: RouterId := [0, 0, 0, 0, 0, 0, 0, 2]
  const B: RouterId := [0, 0, 0, 0, 0, 0, 0, 3]
  const HERE: Prefix := [0, 0, 0, 0, 0, 0, 0, 0, 0, 0, 0, 0, 0, 0, 0, 0]
  const DEST := Destination(HERE, 0)
  const KEY := SourceKey(O, DEST)
  const NOTHING := Local(map[], [])

  function E(a: RouterId, cost: U16): Env
  {
    Env(a, 0, cost, 0, false, false, false, true, true, Done, Done, Done)
  }

  function R(ref: U16, cost: U16, neigh: RouterId, installed: bool): Route
  {
    Route(KEY, ref, cost, 0, 0, neigh, HERE, 0, 15, installed)
  }

  function L(metric: U16, slot: Slot): Local
  {
    Local(map[KEY := Source(0, metric, |slot|, 0)], slot)
  }

  function M(from: RouterId, metric: U16): Msg
  {
    Msg(from, HERE, 0, KEY, Dist(0, metric))
  }

  function N(a: Local, b: Local, live: set<Msg>): Net
  {
    Net(DEST, map[O := Node(NOTHING, 0, 0), A := Node(a, 0, 0), B := Node(b, 0, 0)], live)
  }

  // ---------- What each operation does locally ----------

  lemma OneOk(metric: U16, r: Route)
    requires r.src == KEY
    ensures LocalOk(L(metric, [r]), DEST) && CountSrc([r], KEY) == 1
  {
    assert CountSrc([r], KEY) == 1;
  }

  lemma TwoOk(metric: U16, r: Route, s: Route)
    requires r.src == s.src == KEY && r.neigh != s.neigh && !s.installed
    ensures LocalOk(L(metric, [r, s]), DEST) && CountSrc([r, s], KEY) == 2
  {
    assert [r, s][1..] == [s];
    OneOk(metric, s);
  }

  lemma FirstHeard(a: RouterId, cost: U16)
    requires a != O && cost >= 1
    ensures LocalOk(NOTHING, DEST)
    ensures UpdateRoute(NOTHING, UpdateOf(M(O, 0)), E(a, cost)) == L(INFINITY, [R(0, cost, O, true)])
  {
  }

  /** A keeps its route through O and stores B's as an alternative. */
  lemma SecondHeard()
    ensures LocalOk(L(INFINITY, [R(0, 1, O, true)]), DEST)
    ensures UpdateRoute(L(INFINITY, [R(0, 1, O, true)]), UpdateOf(M(B, 2)), E(A, 1))
         == L(INFINITY, [R(0, 1, O, true), R(2, 1, B, false)])
  {
    OneOk(INFINITY, R(0, 1, O, true));
    var st := L(INFINITY, [R(0, 1, O, true)]);
    assert Find(st.slot, B, HERE) == 1;
  }

  /** B's link to O fails: the route stays installed with an infinite metric. */
  lemma LinkFails()
    ensures LocalOk(L(2, [R(0, 2, O, true)]), DEST)
    ensures UpdateRouteMetric(L(2, [R(0, 2, O, true)]), 0, E(B, INFINITY)) == L(2, [R(0, INFINITY, O, true)])
  {
    OneOk(2, R(0, 2, O, true));
  }

  /** A hears B's retraction. */
  lemma RetractionHeard()
    ensures LocalOk(L(1, [R(0, 1, O, true), R(2, 1, B, false)]), DEST)
    ensures UpdateRoute(L(1, [R(0, 1, O, true), R(2, 1, B, false)]), UpdateOf(M(B, INFINITY)), E(A, 1))
         == L(1, [R(0, 1, O, true), R(INFINITY, 1, B, false)])
  {
    TwoOk(1, R(0, 1, O, true), R(2, 1, B, false));
    assert Find([R(0, 1, O, true), R(2, 1, B, false)], B, HERE) == 1;
  }

  /** B finds A's offer feasible and switches to it. */
  lemma Switched()
    ensures LocalOk(L(2, [R(0, INFINITY, O, true)]), DEST)
    ensures UpdateRoute(L(2, [R(0, INFINITY, O, true)]), UpdateOf(M(A, 1)), E(B, 1))
         == L(2, [R(1, 1, A, true), R(0, INFINITY, O, false)])
  {
    OneOk(2, R(0, INFINITY, O, true));
    assert Find([R(0, INFINITY, O, true)], A, HERE) == 1;
  }

  /** A loses O and installs the only route left, although it is retracted. */
  lemma RetractedInstalled()
    ensures var st := L(1, [R(0, 1, O, true), R(INFINITY, 1, B, false)]);
      && LocalOk(st, DEST) && st.sources[KEY].routeCount > 0
      && FlushRoute(st, 0, E(A, 1)) == L(1, [R(INFINITY, 1, B, true)])
  {
    TwoOk(1, R(0, 1, O, true), R(INFINITY, 1, B, false));
    var st := L(1, [R(0, 1, O, true), R(INFINITY, 1, B, false)]);
    var rest := [R(INFINITY, 1, B, false)];
    assert st.slot[..0] + st.slot[1..] == rest;
    assert Best(rest, st.sources, 0) == 0;
  }

  /** B's old offer, unfeasible at A, makes the installed route finite again. */
  lemma Revived()
    ensures LocalOk(L(1, [R(INFINITY, 1, B, true)]), DEST)
    ensures UpdateRoute(L(1, [R(INFINITY, 1, B, true)]), UpdateOf(M(B, 2)), E(A, 1)) == L(1, [R(2, 1, B, true)])
    ensures Resurrects(L(1, [R(INFINITY, 1, B, true)]), UpdateOf(M(B, 2)), E(A, 1))
  {
    OneOk(1, R(INFINITY, 1, B, true));
  }

  // ---------- The run ----------

  /** Every seqno is 0 and no time passes, so the protocol's assumptions hold. */
  ghost predicate CalmLocal(st: Local)
  {
    && (forall key | key in st.sources :: st.sources[key].seqno == 0 && st.sources[key].time == 0)
    && (forall r <- st.slot :: r.seqno == 0)
  }

  ghost predicate Calm(a: Local, b: Local, live: set<Msg>)
  {
    CalmLocal(a) && CalmLocal(b) && forall m <- live :: m.d.seqno == 0
  }

  lemma CalmNet(a: Local, b: Local, live: set<Msg>)
    requires Calm(a, b, live)
    ensures Fresh(N(a, b, live)) && Windowed(N(a, b, live))
  {
    forall key ensures HasWindow(N(a, b, live), key) {
      assert WindowFor(N(a, b, live), key, 0);
    }
  }

  /** The kernel does what it is asked, and memory suffices. */
  predicate Obeys(env: Env)
  {
    env.allocates && env.inserts && env.kMetric == Done && env.kChanged == Done && env.kLost == Done
  }

  predicate Obedient(s: Step)
  {
    match s
    case Deliver(_, _, env) => Obeys(env)
    case Remetric(_, _, env) => Obeys(env)
    case Retract(_, _, env) => Obeys(env)
    case Flush(_, _, env) => Obeys(env)
    case _ => true
  }

  /** A run so far, and the state it has led to. */
  ghost predicate Ends(nets: seq<Net>, steps: seq<Step>, net: Net)
  {
    Run(nets, steps) && nets[|nets| - 1] == net && forall s <- steps :: Obedient(s)
  }

  lemma Extend(nets: seq<Net>, steps: seq<Step>, net: Net, s: Step, net': Net)
    requires Ends(nets, steps, net) && Enabled(net, s) && Next(net, s) == net' && Obedient(s)
    requires Fresh(net') && Windowed(net')
    ensures Ends(nets + [net'], steps + [s], net')
  {
  }

  lemma SetA(a: Local, b: Local, live: set<Msg>, a': Local)
    ensures SetLocal(N(a, b, live), A, a') == N(a', b, live)
  {
  }

  lemma SetB(a: Local, b: Local, live: set<Msg>, b': Local)
    ensures SetLocal(N(a, b, live), B, b') == N(a, b', live)
  {
  }

  lemma DeliverA(nets: seq<Net>, steps: seq<Step>, a: Local, b: Local, live: set<Msg>, m: Msg, a': Local)
    returns (nets': seq<Net>, steps': seq<Step>)
    requires Ends(nets, steps, N(a, b, live)) && m in live && m.key == KEY && LocalOk(a, DEST) && Calm(a', b, live)
    requires UpdateRoute(a, UpdateOf(m), E(A, 1)) == a'
    ensures Ends(nets', steps', N(a', b, live))
  {
    SetA(a, b, live, a');
    CalmNet(a', b, live);
    nets', steps' := nets + [N(a', b, live)], steps + [Deliver(A, m, E(A, 1))];
    Extend(nets, steps, N(a, b, live), Deliver(A, m, E(A, 1)), N(a', b, live));
  }

  lemma DeliverB(nets: seq<Net>, steps: seq<Step>, a: Local, b: Local, live: set<Msg>, m: Msg, cost: U16, b': Local)
    returns (nets': seq<Net>, steps': seq<Step>)
    requires Ends(nets, steps, N(a, b, live)) && m in live && m.key == KEY && LocalOk(b, DEST) && Calm(a, b', live)
    requires cost >= 1
    requires UpdateRoute(b, UpdateOf(m), E(B, cost)) == b'
    ensures Ends(nets', steps', N(a, b', live))
  {
    SetB(a, b, live, b');
    CalmNet(a, b', live);
    nets', steps' := nets + [N(a, b', live)], steps + [Deliver(B, m, E(B, cost))];
    Extend(nets, steps, N(a, b, live), Deliver(B, m, E(B, cost)), N(a, b', live));
  }

  lemma AdvertiseA(nets: seq<Net>, steps: seq<Step>, fd: U16, slot: Slot, b: Local, live: set<Msg>)
    returns (nets': seq<Net>, steps': seq<Step>)
    requires Ends(nets, steps, N(L(fd, slot), b, live)) && HeadInstalled(slot) && slot[0].src == KEY
    requires slot[0].seqno == 0
    requires Calm(L(fd, slot), b, live)
    ensures Ends(nets', steps', N(L(Min(fd, slot[0].Metric()), slot), b, live + {M(A, slot[0].Metric())}))
  {
    var m := slot[0].Metric();
    var net, net' := N(L(fd, slot), b, live), N(L(Min(fd, m), slot), b, live + {M(A, m)});
    SetA(L(fd, slot), b, live, L(Min(fd, m), slot));
    CalmNet(L(Min(fd, m), slot), b, live + {M(A, m)});
    var s := Advertise(A, 0, true, 0, HERE, 0);
    assert net.Sources(A)[KEY := UpdateSource(net.Sources(A)[KEY], 0, m, 0)] == L(Min(fd, m), slot).sources;
    nets', steps' := nets + [net'], steps + [s];
    Extend(nets, steps, net, s, net');
  }

  lemma AdvertiseB(nets: seq<Net>, steps: seq<Step>, a: Local, fd: U16, slot: Slot, live: set<Msg>)
    returns (nets': seq<Net>, steps': seq<Step>)
    requires Ends(nets, steps, N(a, L(fd, slot), live)) && HeadInstalled(slot) && slot[0].src == KEY
    requires slot[0].seqno == 0
    requires Calm(a, L(fd, slot), live)
    ensures Ends(nets', steps', N(a, L(Min(fd, slot[0].Metric()), slot), live + {M(B, slot[0].Metric())}))
  {
    var m := slot[0].Metric();
    var net, net' := N(a, L(fd, slot), live), N(a, L(Min(fd, m), slot), live + {M(B, m)});
    SetB(a, L(fd, slot), live, L(Min(fd, m), slot));
    CalmNet(a, L(Min(fd, m), slot), live + {M(B, m)});
    var s := Advertise(B, 0, true, 0, HERE, 0);
    assert net.Sources(B)[KEY := UpdateSource(net.Sources(B)[KEY], 0, m, 0)] == L(Min(fd, m), slot).sources;
    nets', steps' := nets + [net'], steps + [s];
    Extend(nets, steps, net, s, net');
  }

  lemma Announced() returns (nets: seq<Net>, steps: seq<Step>)
    ensures Ends(nets, steps, N(NOTHING, NOTHING, {M(O, 0)}))
  {
    var n0, n1, s := N(NOTHING, NOTHING, {}), N(NOTHING, NOTHING, {M(O, 0)}), Announce(O, 0, HERE, 0);
    CalmNet(NOTHING, NOTHING, {});
    CalmNet(NOTHING, NOTHING, {M(O, 0)});
    assert Run([n0], []);
    Extend([n0], [], n0, s, n1);
    nets, steps := [n0] + [n1], [] + [s];
  }

  /** B learns the destination from O and passes it on. */
  lemma PassedOn() returns (nets: seq<Net>, steps: seq<Step>)
    ensures Ends(nets, steps, N(NOTHING, L(2, [R(0, 2, O, true)]), {M(O, 0)} + {M(B, 2)}))
  {
    nets, steps := Announced();
    FirstHeard(B, 2);
    nets, steps := DeliverB(nets, steps, NOTHING, NOTHING, {M(O, 0)}, M(O, 0), 2, L(INFINITY, [R(0, 2, O, true)]));
    nets, steps := AdvertiseB(nets, steps, NOTHING, INFINITY, [R(0, 2, O, true)], {M(O, 0)});
  }

  /** A hears O directly. */
  lemma HeardO() returns (nets: seq<Net>, steps: seq<Step>)
    ensures Ends(nets, steps, N(L(INFINITY, [R(0, 1, O, true)]), L(2, [R(0, 2, O, true)]), {M(O, 0)} + {M(B, 2)}))
  {
    nets, steps := PassedOn();
    FirstHeard(A, 1);
    nets, steps :=
        DeliverA(nets, steps, NOTHING, L(2, [R(0, 2, O, true)]), {M(O, 0)} + {M(B, 2)}, M(O, 0),
        L(INFINITY, [R(0, 1, O, true)]));
  }

  /** A prefers O and keeps B's offer in store. */
  lemma Learned() returns (nets: seq<Net>, steps: seq<Step>)
    ensures Ends(nets, steps,
        N(L(1, [R(0, 1, O, true), R(2, 1, B, false)]), L(2, [R(0, 2, O, true)]), {M(O, 0)} + {M(B, 2)} + {M(A, 1)}))
  {
    nets, steps := HeardO();
    var b, live := L(2, [R(0, 2, O, true)]), {M(O, 0)} + {M(B, 2)};
    SecondHeard();
    nets, steps :=
        DeliverA(nets, steps, L(INFINITY, [R(0, 1, O, true)]), b, live, M(B, 2),
        L(INFINITY, [R(0, 1, O, true), R(2, 1, B, false)]));
    nets, steps := AdvertiseA(nets, steps, INFINITY, [R(0, 1, O, true), R(2, 1, B, false)], b, live);
  }

  /** B's link to O fails; its route stays installed, without a metric. */
  lemma Cut() returns (nets: seq<Net>, steps: seq<Step>)
    ensures Ends(nets, steps,
        N(L(1, [R(0, 1, O, true), R(2, 1, B, false)]), L(2, [R(0, INFINITY, O, true)]),
        {M(O, 0)} + {M(B, 2)} + {M(A, 1)}))
  {
    nets, steps := Learned();
    var a, b, live := L(1, [R(0, 1, O, true), R(2, 1, B, false)]), L(2, [R(0, 2, O, true)]),
        {M(O, 0)} + {M(B, 2)} + {M(A, 1)};
    var b', s := L(2, [R(0, INFINITY, O, true)]), Remetric(B, 0, E(B, INFINITY));
    LinkFails();
    SetB(a, b, live, b');
    CalmNet(a, b', live);
    Extend(nets, steps, N(a, b, live), s, N(a, b', live));
    nets, steps := nets + [N(a, b', live)], steps + [s];
  }

  const AFTER_CUT: set<Msg> := {M(O, 0)} + {M(B, 2)} + {M(A, 1)} + {M(B, INFINITY)}

  /** A is told of it. */
  lemma Warned() returns (nets: seq<Net>, steps: seq<Step>)
    ensures Ends(nets, steps,
        N(L(1, [R(0, 1, O, true), R(INFINITY, 1, B, false)]), L(2, [R(0, INFINITY, O, true)]), AFTER_CUT))
  {
    nets, steps := Cut();
    var a, b := L(1, [R(0, 1, O, true), R(2, 1, B, false)]), L(2, [R(0, INFINITY, O, true)]);
    nets, steps := AdvertiseB(nets, steps, a, 2, [R(0, INFINITY, O, true)], {M(O, 0)} + {M(B, 2)} + {M(A, 1)});
    RetractionHeard();
    var a' := L(1, [R(0, 1, O, true), R(INFINITY, 1, B, false)]);
    nets, steps := DeliverA(nets, steps, a, b, AFTER_CUT, M(B, INFINITY), a');
  }

  /** B turns to A. */
  lemma Turned() returns (nets: seq<Net>, steps: seq<Step>)
    ensures Ends(nets, steps, N(L(1, [R(0, 1, O, true), R(INFINITY, 1, B, false)]),
                                L(2, [R(1, 1, A, true), R(0, INFINITY, O, false)]), AFTER_CUT))
  {
    nets, steps := Warned();
    var a, b := L(1, [R(0, 1, O, true), R(INFINITY, 1, B, false)]), L(2, [R(0, INFINITY, O, true)]);
    Switched();
    nets, steps :=
        DeliverB(nets, steps, a, b, AFTER_CUT, M(A, 1), 1, L(2, [R(1, 1, A, true), R(0, INFINITY, O, false)]));
  }

  lemma FlushA(nets: seq<Net>, steps: seq<Step>, a: Local, b: Local, live: set<Msg>, a': Local)
    returns (nets': seq<Net>, steps': seq<Step>)
    requires Ends(nets, steps, N(a, b, live)) && LocalOk(a, DEST) && Calm(a', b, live) && a.slot != []
    requires a.sources[a.slot[0].src].routeCount > 0 && FlushRoute(a, 0, E(A, 1)) == a'
    ensures Ends(nets', steps', N(a', b, live))
  {
    SetA(a, b, live, a');
    CalmNet(a', b, live);
    nets', steps' := nets + [N(a', b, live)], steps + [Flush(A, 0, E(A, 1))];
    Extend(nets, steps, N(a, b, live), Flush(A, 0, E(A, 1)), N(a', b, live));
  }

  /** A loses O and is left with B's retracted route, installed. */
  lemma Stranded() returns (nets: seq<Net>, steps: seq<Step>)
    ensures Ends(nets, steps, N(L(1, [R(INFINITY, 1, B, true)]), L(2, [R(1, 1, A, true), R(0, INFINITY, O, false)]),
                                AFTER_CUT))
  {
    nets, steps := Turned();
    var a, b := L(1, [R(0, 1, O, true), R(INFINITY, 1, B, false)]), L(2, [R(1, 1, A, true), R(0, INFINITY, O, false)]);
    RetractedInstalled();
    nets, steps := FlushA(nets, steps, a, b, AFTER_CUT, L(1, [R(INFINITY, 1, B, true)]));
  }

  lemma LoopOfTwo(net: Net)
    requires Forwards(net, A, KEY, B) && Forwards(net, B, KEY, A)
    ensures Path(net, KEY, [A, B, A]) && !LoopFree(net)
  {
    var p := [A, B, A];
    assert Path(net, KEY, p) && |p| >= 2 && p[0] == p[|p| - 1];
  }

  /**
    The code as it stands reaches a forwarding loop: from the initial state, inside all
    assumptions, with a kernel that never fails, a run ends with A forwarding to B and B to A.
  */
  lemma UnguardedRunLoops() returns (nets: seq<Net>, steps: seq<Step>)
    ensures Run(nets, steps) && !GuardedRun(nets, steps) && forall s <- steps :: Obedient(s)
    ensures Path(nets[|nets| - 1], KEY, [A, B, A]) && !LoopFree(nets[|nets| - 1])
  {
    nets, steps := Stranded();
    var b := L(2, [R(1, 1, A, true), R(0, INFINITY, O, false)]);
    Revived();
    nets, steps :=
        DeliverA(nets, steps, L(1, [R(INFINITY, 1, B, true)]), b, AFTER_CUT, M(B, 2), L(1, [R(2, 1, B, true)]));
    LoopOfTwo(N(L(1, [R(2, 1, B, true)]), b, AFTER_CUT));
    if GuardedRun(nets, steps) { BabelIsLoopFree(nets, steps, |nets| - 1); }
  }
}

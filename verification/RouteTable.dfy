/**
  The route table as the daemon keeps it (quagga-srx/babeld/route.c): a sorted
  array of slots found by binary search, each slot a list of routes with the
  installed route at its head, together with the source table.
*/
module RouteTable {
  import opened Octets
  import opened Distance
  import opened Sources
  import opened RouteSlot
  import opened RouteUpdate

  type Table = seq<Slot>

  /** `route_compare`. */
  function Compare(d: Destination, e: Destination): (c: int)
    ensures c == 0 <==> d == e
  {
    var c := Memcmp(d.prefix, e.prefix);
    if c != 0 then c else if d.plen < e.plen then -1 else if d.plen > e.plen then 1 else 0
  }

  /** By the octets of the prefix, and shorter prefixes before longer ones. */
  lemma SlotOrder(d: Destination, e: Destination)
    ensures var k := FirstDifference(d.prefix, e.prefix);
      Compare(d, e) < 0 <==> if k < 16 then d.prefix[k] < e.prefix[k] else d.plen < e.plen
  {
    MemcmpLexicographic(d.prefix, e.prefix);
  }

  lemma CompareAntisymmetric(d: Destination, e: Destination)
    ensures Compare(d, e) < 0 <==> Compare(e, d) > 0
  {
    MemcmpAntisymmetric(d.prefix, e.prefix);
  }

  lemma CompareTransitive(d: Destination, e: Destination, f: Destination)
    requires Compare(d, e) < 0 && Compare(e, f) < 0
    ensures Compare(d, f) < 0
  {
    MemcmpTransitive(d.prefix, e.prefix, f.prefix);
  }

  function DestOf(l: Slot): Destination
    requires l != []
  {
    l[0].src.dest
  }

  /** Slots are non-empty and strictly sorted by destination. */
  ghost predicate Sorted(t: Table)
  {
    && (forall i | 0 <= i < |t| :: t[i] != [])
    && (forall i, j | 0 <= i < j < |t| :: Compare(DestOf(t[i]), DestOf(t[j])) < 0)
  }

  // ---------- The table as a function from destinations to lists ----------

  /** The reference lookup: a scan of the whole table. */
  ghost function Lookup(t: Table, d: Destination): (l: Slot)
    requires Sorted(t)
    ensures l == [] || (l in t && DestOf(l) == d)
    ensures l == [] ==> forall i | 0 <= i < |t| :: DestOf(t[i]) != d
  {
    if t == [] then [] else if DestOf(t[0]) == d then t[0] else Lookup(t[1..], d)
  }

  lemma LookupIs(t: Table, l: Slot)
    requires Sorted(t) && l in t && l != []
    ensures Lookup(t, DestOf(l)) == l
  {
    var m := Lookup(t, DestOf(l));
    var i :| 0 <= i < |t| && t[i] == l;
    var j :| 0 <= j < |t| && t[j] == m;
    assert i == j;
  }

  /** `u` has the lists of `t` other than that of `d`. */
  ghost predicate SameElsewhere(t: Table, u: Table, d: Destination)
    requires Sorted(t) && Sorted(u)
  {
    && (forall l | l in t && DestOf(l) != d :: l in u)
    && (forall l | l in u && DestOf(l) != d :: l in t)
  }

  lemma LookupElsewhere(t: Table, u: Table, d: Destination, e: Destination)
    requires Sorted(t) && Sorted(u) && d != e && SameElsewhere(t, u, d)
    ensures Lookup(t, e) == Lookup(u, e)
  {
    var l, m := Lookup(t, e), Lookup(u, e);
    if l != [] { LookupIs(u, l); }
    if m != [] { LookupIs(t, m); }
  }

  /** `u` is `t` with the list of `d` replaced by `l`. */
  ghost predicate Becomes(t: Table, u: Table, d: Destination, l: Slot)
    requires Sorted(t)
  {
    Sorted(u) && Lookup(u, d) == l && forall e | e != d :: Lookup(u, e) == Lookup(t, e)
  }

  lemma BecomesBy(t: Table, u: Table, d: Destination, l: Slot)
    requires Sorted(t) && Sorted(u) && Lookup(u, d) == l && SameElsewhere(t, u, d)
    ensures Becomes(t, u, d, l)
  {
    forall e | e != d ensures Lookup(u, e) == Lookup(t, e) { LookupElsewhere(t, u, d, e); }
  }

  lemma ReplaceSlot(t: Table, i: nat, l: Slot)
    requires Sorted(t) && i < |t| && l != [] && DestOf(l) == DestOf(t[i])
    ensures Becomes(t, t[i := l], DestOf(l), l)
  {
    var u, d := t[i := l], DestOf(l);
    ReplacedSorted(t, i, l);
    assert u[i] == l && l in u;
    LookupIs(u, l);
    assert SameElsewhere(t, u, d) by {
      assert forall j | 0 <= j < |t| && j != i :: u[j] == t[j];
      forall m | m in t && DestOf(m) != d ensures m in u { var j :| 0 <= j < |t| && t[j] == m; assert u[j] == m; }
    }
    BecomesBy(t, u, d, l);
  }

  lemma ReplacedSorted(t: Table, i: nat, l: Slot)
    requires Sorted(t) && i < |t| && l != [] && DestOf(l) == DestOf(t[i])
    ensures Sorted(t[i := l])
  {
    var u := t[i := l];
    assert forall j | 0 <= j < |t| :: u[j] != [] && DestOf(u[j]) == DestOf(t[j]);
  }

  lemma InsertSlot(t: Table, n: nat, l: Slot)
    requires Sorted(t) && n <= |t| && l != []
    requires forall j | 0 <= j < n :: Compare(DestOf(l), DestOf(t[j])) > 0
    requires forall j | n <= j < |t| :: Compare(DestOf(l), DestOf(t[j])) < 0
    ensures Becomes(t, t[..n] + [l] + t[n..], DestOf(l), l)
  {
    var u, d := t[..n] + [l] + t[n..], DestOf(l);
    InsertedSorted(t, n, l);
    assert u[n] == l && l in u;
    LookupIs(u, l);
    assert SameElsewhere(t, u, d) by {
      assert forall m | m != l :: m in u <==> m in t;
    }
    BecomesBy(t, u, d, l);
  }

  lemma InsertedSorted(t: Table, n: nat, l: Slot)
    requires Sorted(t) && n <= |t| && l != []
    requires forall j | 0 <= j < n :: Compare(DestOf(l), DestOf(t[j])) > 0
    requires forall j | n <= j < |t| :: Compare(DestOf(l), DestOf(t[j])) < 0
    ensures Sorted(t[..n] + [l] + t[n..])
  {
    var u := t[..n] + [l] + t[n..];
    forall i, j | 0 <= i < j < |u| ensures Compare(DestOf(u[i]), DestOf(u[j])) < 0 {
      InsertedAt(t, n, l, i);
      InsertedAt(t, n, l, j);
      if j == n { CompareAntisymmetric(DestOf(l), DestOf(t[i])); }
    }
  }

  lemma InsertedAt(t: Table, n: nat, l: Slot, j: nat)
    requires n <= |t| && j <= |t|
    ensures (t[..n] + [l] + t[n..])[j] == if j < n then t[j] else if j == n then l else t[j - 1]
  {
  }

  lemma RemoveSlot(t: Table, i: nat)
    requires Sorted(t) && i < |t|
    ensures Becomes(t, t[..i] + t[i + 1..], DestOf(t[i]), [])
  {
    var u, d := t[..i] + t[i + 1..], DestOf(t[i]);
    RemovedSorted(t, i);
    assert Lookup(u, d) == [];
    RemovedElsewhere(t, i, u);
    BecomesBy(t, u, d, []);
  }

  lemma RemovedElsewhere(t: Table, i: nat, u: Table)
    requires Sorted(t) && i < |t| && u == t[..i] + t[i + 1..]
    ensures Sorted(u) && SameElsewhere(t, u, DestOf(t[i]))
  {
    RemovedSorted(t, i);
    RemovedMembers(t, i);
  }

  lemma RemovedMembers<T>(s: seq<T>, i: nat)
    requires i < |s|
    ensures forall x | x in s[..i] + s[i + 1..] :: x in s
    ensures forall x | x in s && x != s[i] :: x in s[..i] + s[i + 1..]
  {
    assert s == s[..i] + [s[i]] + s[i + 1..];
  }

  lemma RemovedSorted(t: Table, i: nat)
    requires Sorted(t) && i < |t|
    ensures Sorted(t[..i] + t[i + 1..])
    ensures forall l | l in t[..i] + t[i + 1..] :: l != [] && DestOf(l) != DestOf(t[i])
  {
    var u := t[..i] + t[i + 1..];
    assert forall j | 0 <= j < |u| :: u[j] == t[if j < i then j else j + 1];
    forall j, k | 0 <= j < k < |u| ensures Compare(DestOf(u[j]), DestOf(u[k])) < 0 {
      assert u[j] == t[if j < i then j else j + 1] && u[k] == t[if k < i then k else k + 1];
    }
    forall l | l in u ensures l != [] && DestOf(l) != DestOf(t[i]) {
      var j :| 0 <= j < |u| && u[j] == l;
      var k := if j < i then j else j + 1;
      assert t[k] == l && k != i;
      assert k < i ==> Compare(DestOf(t[k]), DestOf(t[i])) < 0;
      assert i < k ==> Compare(DestOf(t[i]), DestOf(t[k])) < 0;
    }
  }

  // ---------- The table object ----------

  /** Sorted, and for every destination its list and the source table fit together. */
  ghost predicate TableOk(t: Table, sources: SourceTable)
  {
    Sorted(t) && forall d :: LocalOk(Local(sources, Lookup(t, d)), d)
  }

  /** An installed route sits at the head of the one list of its destination. */
  lemma InstalledIsHead(t: Table, sources: SourceTable, l: Slot, x: Route)
    requires TableOk(t, sources) && l in t && x in l && x.installed
    ensures l == Lookup(t, x.src.dest) && x == l[0]
  {
    LookupIs(t, l);
    assert LocalOk(Local(sources, Lookup(t, DestOf(l))), DestOf(l));
  }

  /** Reordering a list and moving its installed mark keeps the table in order. */
  lemma TableOkSelected(t: Table, sources: SourceTable, u: Table, d: Destination, l: Slot)
    requires TableOk(t, sources) && Becomes(t, u, d, l) && SlotOk(l) && SameRoutes(Lookup(t, d), l)
    ensures TableOk(u, sources)
  {
    assert LocalOk(Local(sources, Lookup(t, d)), d);
    SameRoutesLocal(Lookup(t, d), l, sources, d);
    TableOkElsewhere(t, sources, u, sources, d, l);
  }

  /** Whatever the kernel answers, install, uninstall and switch keep a list well formed. */
  lemma InstallOk(l: Slot, k: nat, rc: Kernel)
    requires k < |l| && SlotOk(l)
    ensures SlotOk(Install(l, k, rc)) && SameRoutes(l, Install(l, k, rc))
    ensures SlotOk(Switch(l, k, rc)) && SameRoutes(l, Switch(l, k, rc))
    ensures SlotOk(SetInstalled(l, k, false)) && SameRoutes(l, SetInstalled(l, k, false))
  {
    InstalledOk(l, k);
    UninstalledOk(l, k);
    InstallCases(l, k, rc);
  }

  lemma UninstalledOk(l: Slot, k: nat)
    requires k < |l| && SlotOk(l)
    ensures SlotOk(SetInstalled(l, k, false)) && SameRoutes(l, SetInstalled(l, k, false))
  {
    assert Strip(SetInstalled(l, k, false)) == Strip(l);
    AlikeOk(l, SetInstalled(l, k, false));
  }

  lemma InstallCases(l: Slot, k: nat, rc: Kernel)
    requires k < |l|
    ensures Install(l, k, rc) == l || Install(l, k, rc) == Installed(l, k)
    ensures Switch(l, k, rc) == l || Switch(l, k, rc) == Installed(l, k)
  {
    assert !l[0].installed ==> SetInstalled(l, 0, false) == l;
  }

  lemma TableOkInstalled(t: Table, sources: SourceTable, u: Table, d: Destination, k: nat, rc: Kernel)
    requires TableOk(t, sources) && k < |Lookup(t, d)|
    requires var l := Lookup(t, d);
      || Becomes(t, u, d, Install(l, k, rc))
      || Becomes(t, u, d, Switch(l, k, rc))
      || Becomes(t, u, d, SetInstalled(l, k, false))
    ensures TableOk(u, sources)
  {
    assert LocalOk(Local(sources, Lookup(t, d)), d);
    InstallOk(Lookup(t, d), k, rc);
    TableOkSelected(t, sources, u, d, Lookup(u, d));
  }

  /** Only sources of `d` differ. */
  ghost predicate SourcesElsewhere(t: SourceTable, t': SourceTable, d: Destination)
  {
    forall key: SourceKey | key.dest != d :: (key in t <==> key in t') && (key in t ==> t[key] == t'[key])
  }

  lemma UpdateRouteElsewhere(st: Local, u: Update, env: Env)
    requires LocalOk(st, u.key.dest)
    ensures SourcesElsewhere(st.sources, UpdateRoute(st, u, env).sources, u.key.dest)
  {
    var i := Find(st.slot, u.neigh, u.nexthop);
    if i < |st.slot| { CountSrcPositive(st.slot, i); }
  }

  /** An operation that stays inside one destination keeps or breaks the table there only. */
  lemma TableOkElsewhere(t: Table, sources: SourceTable, u: Table, sources': SourceTable, d: Destination, l: Slot)
    requires TableOk(t, sources) && Becomes(t, u, d, l) && SourcesElsewhere(sources, sources', d)
    ensures TableOk(u, sources') <==> LocalOk(Local(sources', l), d)
  {
    forall e | e != d ensures LocalOk(Local(sources', Lookup(u, e)), e) {
      assert LocalOk(Local(sources, Lookup(t, e)), e);
      assert Lookup(u, e) == Lookup(t, e);
    }
    if LocalOk(Local(sources', l), d) {
      forall e ensures LocalOk(Local(sources', Lookup(u, e)), e) { }
    } else {
      assert !LocalOk(Local(sources', Lookup(u, d)), d);
    }
  }

  lemma UpdateTwice(l: Slot, k: nat, a: Route, b: Route)
    requires k < |l|
    ensures l[k := a][k] == a && l[k := a][k := b] == l[k := b]
  {
  }

  lemma RemoveMarked(l: Slot, k: nat, b: bool)
    requires k < |l|
    ensures SetInstalled(l, k, b)[..k] + SetInstalled(l, k, b)[k + 1..] == l[..k] + l[k + 1..]
  {
  }

  /** The loop of `find_best_route`. */
  method ScanBest(l: Slot, sources: SourceTable, now: int, q: Search) returns (b: nat)
    requires l != [] && SourcesKnown(l, sources)
    ensures b == BestFor(l, sources, now, q)
  {
    b := 0;
    var j := 1;
    while j < |l|
      invariant 1 <= j <= |l|
      invariant SourcesKnown(l[..j], sources) && b == BestFor(l[..j], sources, now, q)
    {
      BestStep(l, j, sources, now, q);
      if Candidate(l[j], sources, now, q) && l[j].Metric() < l[b].Metric() { b := j; }
      j := j + 1;
    }
    assert l[..|l|] == l;
  }

  lemma BestStep(l: Slot, j: nat, sources: SourceTable, now: int, q: Search)
    requires 1 <= j < |l| && SourcesKnown(l, sources)
    ensures SourcesKnown(l[..j], sources) && SourcesKnown(l[..j + 1], sources) && l[j].src in sources
    ensures var b := BestFor(l[..j], sources, now, q);
      BestFor(l[..j + 1], sources, now, q) ==
      if Candidate(l[j], sources, now, q) && l[j].Metric() < l[b].Metric() then j else b
  {
    assert l[..j + 1][..j] == l[..j];
  }

  /** The size of the slot array after a new slot was asked for. */
  function Grown(grows: bool, slots: nat, max: nat): nat
  {
    if slots < max || !grows then max else if max == 0 then 8 else 2 * max
  }

  /** ... and after a route was unlinked, which looks at the size only if it was the head of its list. */
  function Shrunk(head: bool, shrinks: bool, slots: nat, max: nat): nat
  {
    if !head then max
    else if slots == 0 then 0
    else if max > 8 && 4 * slots + 4 <= max && shrinks then max / 2
    else max
  }

  /** Growing makes room, shrinking leaves room: the array is never smaller than what it holds. */
  lemma RoomKept(slots: nat, max: nat, b: bool, c: bool)
    requires slots <= max
    ensures slots <= Grown(b, slots, max) && slots <= Shrunk(b, c, slots, max) && (b ==> slots < Grown(b, slots, max))
    ensures Shrunk(b, c, slots, max) < max && slots > 0 ==> 4 <= 2 * slots + 2 <= Shrunk(b, c, slots, max)
  {
  }

  class Router {
    var slots: Table            // routes[0..route_slots)
    var maxSlots: nat           // max_route_slots
    var sources: SourceTable

    ghost predicate Valid()
      reads this
    {
      TableOk(slots, sources) && |slots| <= maxSlots
    }

    /** What the table holds for one destination. */
    ghost function At(d: Destination): Local
      reads this
      requires Sorted(slots)
    {
      Local(sources, Lookup(slots, d))
    }

    constructor ()
      ensures Valid() && slots == [] && sources == map[]
    {
      slots, maxSlots, sources := [], 0, map[];
    }

    /** `find_route_slot`: binary search; `n` is where a missing destination belongs. */
    method FindRouteSlot(d: Destination) returns (i: int, n: nat)
      requires Sorted(slots)
      ensures -1 <= i < |slots|
      ensures i >= 0 ==> DestOf(slots[i]) == d && Lookup(slots, d) == slots[i]
      ensures i < 0 ==> Lookup(slots, d) == [] && n <= |slots|
      ensures i < 0 ==> forall j | 0 <= j < n :: Compare(d, DestOf(slots[j])) > 0
      ensures i < 0 ==> forall j | n <= j < |slots| :: Compare(d, DestOf(slots[j])) < 0
    {
      if |slots| < 1 { return -1, 0; }
      var p, g := 0, |slots| - 1;
      while p <= g
        invariant 0 <= p <= g + 1 <= |slots|
        invariant forall j | 0 <= j < p :: Compare(d, DestOf(slots[j])) > 0
        invariant forall j | g < j < |slots| :: Compare(d, DestOf(slots[j])) < 0
      {
        var m := (p + g) / 2;
        var c := Compare(d, DestOf(slots[m]));
        if c == 0 {
          LookupIs(slots, slots[m]);
          return m, 0;
        } else if c < 0 {
          forall j | m < j < |slots| ensures Compare(d, DestOf(slots[j])) < 0 {
            CompareTransitive(d, DestOf(slots[m]), DestOf(slots[j]));
          }
          g := m - 1;
        } else {
          forall j | 0 <= j < m ensures Compare(d, DestOf(slots[j])) > 0 {
            CompareAntisymmetric(DestOf(slots[m]), d);
            CompareTransitive(DestOf(slots[j]), DestOf(slots[m]), d);
            CompareAntisymmetric(DestOf(slots[j]), d);
          }
          p := m + 1;
        }
      }
      return -1, p;
    }

    /** What the internal operations on the list of `d` rely on. */
    ghost predicate Ready(d: Destination)
      reads this
    {
      && Sorted(slots) && |slots| <= maxSlots
      && SlotOk(Lookup(slots, d)) && SourcesKnown(Lookup(slots, d), sources)
    }

    /** Stores `l` as the list of `d`, which has a slot. */
    method SetSlot(d: Destination, l: Slot)
      requires Sorted(slots) && Lookup(slots, d) != [] && l != [] && DestOf(l) == d
      modifies this`slots
      ensures Becomes(old(slots), slots, d, l) && |slots| == old(|slots|)
    {
      var i, _ := FindRouteSlot(d);
      ReplaceSlot(slots, i, l);
      slots := slots[i := l];
    }

    /** `find_route`. */
    method FindRoute(d: Destination, neigh: RouterId, nexthop: Prefix) returns (k: nat)
      requires Ready(d)
      ensures k == Find(Lookup(slots, d), neigh, nexthop)
    {
      var i, _ := FindRouteSlot(d);
      if i < 0 { return 0; }
      var l := slots[i];
      k := 0;
      while k < |l| && !l[k].Matches(neigh, nexthop)
        invariant k <= |l|
        invariant k + Find(l[k..], neigh, nexthop) == Find(l, neigh, nexthop)
      {
        assert l[k..][1..] == l[k + 1..];
        k := k + 1;
      }
    }

    /** `find_installed_route`: binary search and a look at the head find what a scan of all routes finds. */
    method FindInstalledRoute(d: Destination) returns (found: bool, r: Slot)
      requires Valid()
      ensures found <==> exists l <- slots, x <- l :: x.src.dest == d && x.installed
      ensures found ==> |r| == 1 && r[0].src.dest == d && r[0].installed
      ensures found ==> forall l <- slots, x <- l | x.src.dest == d && x.installed :: x == r[0]
      ensures found <==> HeadInstalled(At(d).slot)
    {
      var i, _ := FindRouteSlot(d);
      forall l <- slots, x <- l | x.src.dest == d && x.installed
        ensures HeadInstalled(At(d).slot) && x == At(d).slot[0]
      {
        InstalledIsHead(slots, sources, l, x);
      }
      found, r := false, [];
      if i >= 0 && slots[i][0].installed {
        assert slots[i] in slots && slots[i][0] in slots[i];
        found, r := true, slots[i][..1];
      }
    }

    /** `insert_route`; `grows` tells whether `realloc` would succeed. */
    method InsertRoute(route: Route, grows: bool) returns (ok: bool)
      requires Sorted(slots) && |slots| <= maxSlots && !route.installed
      modifies this`slots, this`maxSlots
      ensures ok <==> old(Lookup(slots, route.src.dest)) != [] || old(|slots| < maxSlots) || grows
      ensures |slots| <= maxSlots
      ensures maxSlots == old(Grown(Lookup(slots, route.src.dest) == [] && grows, |slots|, maxSlots))
      ensures if ok then Becomes(old(slots), slots, route.src.dest, old(Lookup(slots, route.src.dest)) + [route])
              else slots == old(slots)
    {
      var d := route.src.dest;
      var i, n := FindRouteSlot(d);
      if i < 0 {
        if |slots| >= maxSlots && grows {
          maxSlots := if maxSlots < 1 then 8 else 2 * maxSlots;
        }
        if |slots| >= maxSlots { return false; }
        InsertSlot(slots, n, [route]);
        slots := slots[..n] + [[route]] + slots[n..];
      } else {
        SetSlot(d, slots[i] + [route]);
      }
      ok := true;
    }

    /** The unlinking half of `flush_route`, with the shrinking of the slot array; `shrinks` is `realloc`'s answer. */
    method Unlink(d: Destination, k: nat, shrinks: bool)
      requires Sorted(slots) && |slots| <= maxSlots && k < |Lookup(slots, d)|
      requires forall r <- Lookup(slots, d) :: r.src.dest == d
      modifies this`slots, this`maxSlots
      ensures |slots| <= maxSlots == Shrunk(k == 0, shrinks, |slots|, old(maxSlots))
      ensures Becomes(old(slots), slots, d, old(Lookup(slots, d))[..k] + old(Lookup(slots, d))[k + 1..])
    {
      var i, _ := FindRouteSlot(d);
      var l := slots[i];
      if |l| == 1 {
        RemoveSlot(slots, i);
        slots := slots[..i] + slots[i + 1..];
      } else {
        SetSlot(d, l[..k] + l[k + 1..]);
      }
      if k == 0 {
        if |slots| == 0 {
          maxSlots := 0;
        } else if maxSlots > 8 && |slots| < maxSlots / 4 {
          if shrinks { maxSlots := maxSlots / 2; }
        }
      }
    }

    /** `move_installed_route`. */
    method MoveInstalledRoute(d: Destination, k: nat)
      requires Sorted(slots) && k < |Lookup(slots, d)| && Lookup(slots, d)[k].src.dest == d
      modifies this`slots
      ensures Becomes(old(slots), slots, d, MoveToHead(old(Lookup(slots, d)), k)) && |slots| == old(|slots|)
    {
      var i, _ := FindRouteSlot(d);
      SetSlot(d, MoveToHead(slots[i], k));
    }

    /** Marks route `k` of `l` installed and moves it to the head. */
    method MarkAndMove(d: Destination, l: Slot, k: nat)
      requires Sorted(slots) && Lookup(slots, d) != [] && k < |l| && DestOf(l) == l[k].src.dest == d
      modifies this`slots
      ensures Becomes(old(slots), slots, d, MoveToHead(SetInstalled(l, k, true), k)) && |slots| == old(|slots|)
    {
      SetSlot(d, SetInstalled(l, k, true));
      MoveInstalledRoute(d, k);
    }

    /** `install_route`; `rc` is the answer of the kernel. */
    method InstallRoute(d: Destination, k: nat, rc: Kernel)
      requires Ready(d) && k < |Lookup(slots, d)|
      modifies this`slots
      ensures Becomes(old(slots), slots, d, Install(old(Lookup(slots, d)), k, rc)) && |slots| == old(|slots|)
      ensures old(Valid()) ==> Valid()
    {
      var i, _ := FindRouteSlot(d);
      var l := slots[i];
      if l[k].installed { return; }
      if k != 0 && l[0].installed { return; }
      if rc == Failed { return; }
      MarkAndMove(d, l, k);
      if old(Valid()) { TableOkInstalled(old(slots), sources, slots, d, k, rc); }
    }

    /** `uninstall_route`: the kernel's answer is only logged. */
    method UninstallRoute(d: Destination, k: nat)
      requires Sorted(slots) && k < |Lookup(slots, d)|
      modifies this`slots
      ensures Becomes(old(slots), slots, d, SetInstalled(old(Lookup(slots, d)), k, false)) && |slots| == old(|slots|)
      ensures old(Valid()) ==> Valid()
    {
      var i, _ := FindRouteSlot(d);
      var l := slots[i];
      if !l[k].installed {
        assert SetInstalled(l, k, false) == l;
        return;
      }
      SetSlot(d, SetInstalled(l, k, false));
      if old(Valid()) { TableOkInstalled(old(slots), sources, slots, d, k, Done); }
    }

    /** `switch_routes`; `old` is the installed route, if there is one. */
    method SwitchRoutes(d: Destination, hasOld: bool, k: nat, rc: Kernel)
      requires Ready(d) && k < |Lookup(slots, d)| && hasOld == HeadInstalled(Lookup(slots, d))
      modifies this`slots
      ensures Becomes(old(slots), slots, d, Switch(old(Lookup(slots, d)), k, rc)) && |slots| == old(|slots|)
      ensures old(Valid()) ==> Valid()
    {
      if !hasOld {
        InstallRoute(d, k, rc);
        return;
      }
      if rc != Done { return; }
      var i, _ := FindRouteSlot(d);
      var l := slots[i];
      MarkAndMove(d, SetInstalled(l, 0, false), k);
      if old(Valid()) { TableOkInstalled(old(slots), sources, slots, d, k, rc); }
    }

    /** `change_route_metric`. */
    method ChangeRouteMetric(d: Destination, k: nat, refmetric: U16, cost: U16, add: U16, rc: Kernel)
      requires Sorted(slots) && k < |Lookup(slots, d)|
      modifies this`slots
      ensures Becomes(old(slots), slots, d,
                      old(Lookup(slots, d))[k := ChangeMetric(old(Lookup(slots, d))[k], refmetric, cost, add, rc)])
      ensures |slots| == old(|slots|)
    {
      var i, _ := FindRouteSlot(d);
      var l := slots[i];
      var r := l[k];
      var newmetric := Min((refmetric as int) + cost + add, INFINITY);
      if r.installed && !SameKernelMetric(r.Metric(), newmetric) && rc != Done {
        assert l[k := r] == l;
        return;
      }
      SetSlot(d, l[k := r.(refmetric := refmetric, cost := cost, addMetric := add)]);
    }

    /** `find_best_route` for feasible routes. */
    method FindBestRoute(d: Destination, now: int, q: Search) returns (found: bool, b: nat)
      requires Ready(d)
      ensures found <==> Lookup(slots, d) != []
      ensures found ==> b == BestFor(Lookup(slots, d), sources, now, q)
    {
      var i, _ := FindRouteSlot(d);
      if i < 0 { return false, 0; }
      b := ScanBest(slots[i], sources, now, q);
      found := true;
    }

    /** `consider_route`. */
    method ConsiderRoute(d: Destination, k: nat, now: int, blocked: bool, rc: Kernel)
      requires Ready(d) && k < |Lookup(slots, d)|
      modifies this`slots
      ensures Ready(d) && |slots| == old(|slots|)
      ensures Becomes(old(slots), slots, d, Consider(old(Lookup(slots, d)), k, sources, now, blocked, rc))
    {
      ConsiderReselects(Lookup(slots, d), k, sources, now, blocked, rc);
      var i, _ := FindRouteSlot(d);
      var l := slots[i];
      if l[k].installed { return; }
      if !Feasible(l[k], sources, now) { return; }
      if blocked { return; }
      if l[0].installed {
        if l[k].Metric() >= INFINITY { return; }
        if !(l[0].Metric() >= INFINITY || l[0].Metric() >= (l[k].Metric() as int) + 64) { return; }
      }
      SwitchRoutes(d, l[0].installed, k, rc);
    }

    /** `route_changed`. */
    method NoteRouteChanged(d: Destination, k: nat, oldmetric: U16, now: int, blocked: bool, rc: Kernel)
      requires Ready(d) && k < |Lookup(slots, d)|
      modifies this`slots
      ensures Ready(d) && |slots| == old(|slots|)
      ensures Becomes(old(slots), slots, d,
          RouteChanged(old(Lookup(slots, d)), k, oldmetric, sources, now, blocked, rc))
    {
      var i, _ := FindRouteSlot(d);
      var l := slots[i];
      if l[k].installed {
        if l[k].Metric() > oldmetric {
          var _, b := FindBestRoute(d, now, FEASIBLE);
          if l[b].Metric() <= (l[k].Metric() as int) - 96 {
            ConsiderRoute(d, b, now, blocked, rc);
          }
        }
      } else {
        ConsiderRoute(d, k, now, blocked, rc);
      }
    }

    /** `route_lost`. */
    method NoteRouteLost(d: Destination, now: int, blocked: bool, rc: Kernel)
      requires Ready(d)
      modifies this`slots
      ensures Ready(d) && |slots| == old(|slots|)
      ensures Becomes(old(slots), slots, d, RouteLost(old(Lookup(slots, d)), sources, now, blocked, rc))
    {
      var found, b := FindBestRoute(d, now, FEASIBLE);
      if found {
        ConsiderRoute(d, b, now, blocked, rc);
      }
    }

    /** What `insert_route` will answer for a route to `d`. */
    ghost predicate HasRoom(d: Destination, grows: bool)
      reads this
      requires Sorted(slots)
    {
      Lookup(slots, d) != [] || |slots| < maxSlots || grows
    }

    /** Overwrites one route of the list of `d`. */
    method SetRoute(d: Destination, k: nat, r: Route)
      requires Sorted(slots) && k < |Lookup(slots, d)| && r.src.dest == d
      modifies this`slots
      ensures Becomes(old(slots), slots, d, old(Lookup(slots, d))[k := r]) && |slots| == old(|slots|)
    {
      var i, _ := FindRouteSlot(d);
      SetSlot(d, slots[i][k := r]);
    }

    method GetRoute(d: Destination, k: nat) returns (r: Route)
      requires Sorted(slots) && k < |Lookup(slots, d)|
      ensures r == Lookup(slots, d)[k]
    {
      var i, _ := FindRouteSlot(d);
      r := slots[i][k];
    }

    /** `change_route_metric` and the hold time. */
    method RewriteMetric(u: Update, k: nat, env: Env)
      requires Sorted(slots) && k < |Lookup(slots, u.key.dest)| && Lookup(slots, u.key.dest)[k].src == u.key
      modifies this`slots
      ensures |slots| == old(|slots|)
      ensures var l := old(Lookup(slots, u.key.dest));
        Becomes(old(slots), slots, u.key.dest,
        l[k := ChangeMetric(l[k], u.refmetric, env.cost, env.add, env.kMetric).(holdTime := HoldTime(u.interval))])
    {
      var d := u.key.dest;
      ChangeRouteMetric(d, k, u.refmetric, env.cost, env.add, env.kMetric);
      var r := GetRoute(d, k);
      SetRoute(d, k, r.(holdTime := HoldTime(u.interval)));
    }

    /** The writes of `update_route` to the fields of a stored route. */
    method RewriteRoute(u: Update, k: nat, feasible: bool, env: Env)
      requires Sorted(slots) && k < |Lookup(slots, u.key.dest)|
      modifies this`slots
      ensures |slots| == old(|slots|)
      ensures var l := old(Lookup(slots, u.key.dest));
        Becomes(old(slots), slots, u.key.dest, l[k := Rewritten(l[k], u, feasible, env)])
    {
      var d := u.key.dest;
      ghost var l := Lookup(slots, d);
      var r := GetRoute(d, k);
      var refreshed := (feasible || env.keepUnfeasible) && u.refmetric < INFINITY;
      r := r.(src := u.key, seqno := u.seqno, time := if refreshed then env.now else r.time);
      SetRoute(d, k, r);
      RewriteMetric(u, k, env);
      assert Rewritten(l[k], u, feasible, env)
          == ChangeMetric(r, u.refmetric, env.cost, env.add, env.kMetric).(holdTime := HoldTime(u.interval));
    }

    /** `update_route` on a stored route, up to `route_changed`. */
    method StoreUpdate(u: Update, k: nat, feasible: bool, lost: bool, env: Env)
      requires Sorted(slots) && u.key in sources && k < |Lookup(slots, u.key.dest)|
      requires lost == Lost(Lookup(slots, u.key.dest)[k], u, feasible)
      modifies this
      ensures maxSlots == old(maxSlots) && |slots| == old(|slots|)
      ensures sources == Retain(old(sources), u.key)
      ensures Becomes(old(slots), slots, u.key.dest, Stored(old(Lookup(slots, u.key.dest)), k, u, feasible, env))
    {
      ghost var l := Lookup(slots, u.key.dest);
      sources := Retain(sources, u.key);
      if lost {
        UninstallRoute(u.key.dest, k);
        UpdateTwice(l, k, l[k].(installed := false), Rewritten(l[k].(installed := false), u, feasible, env));
      }
      RewriteRoute(u, k, feasible, env);
    }

    /** Route selection after an update of route `k` has been stored. */
    method Reselect(d: Destination, k: nat, oldmetric: U16, lost: bool, env: Env, ghost changed: Slot)
      requires Ready(d) && k < |Lookup(slots, d)|
      requires changed == RouteChanged(Lookup(slots, d), k, oldmetric, sources, env.now, env.blocked, env.kChanged)
      requires SourcesKnown(changed, sources)
      modifies this`slots
      ensures Ready(d) && |slots| == old(|slots|)
      ensures Becomes(old(slots), slots, d,
        if lost then RouteLost(changed, sources, env.now, env.blocked, env.kLost) else changed)
    {
      NoteRouteChanged(d, k, oldmetric, env.now, env.blocked, env.kChanged);
      if lost {
        NoteRouteLost(d, env.now, env.blocked, env.kLost);
      }
    }

    method StoreAndSelect(u: Update, k: nat, r: Route, env: Env, ghost st: Local)
      requires Sorted(slots) && |slots| <= maxSlots && st == At(u.key.dest) && LocalOk(st, u.key.dest)
      requires u.key in sources
      requires k < |st.slot| && st.slot[k] == r && sources[r.src].routeCount > 0
      modifies this
      ensures |slots| == old(|slots|) && maxSlots == old(maxSlots) && sources == Retain(st.sources, u.key)
      ensures Becomes(old(slots), slots, u.key.dest, UpdateExisting(st, k, u, env).slot)
    {
      var d := u.key.dest;
      var feasible := UpdateFeasible(sources[u.key], u.seqno, u.refmetric, env.now);
      var lost := !feasible && r.installed && u.key != r.src;
      StoreUpdate(u, k, feasible, lost, env);
      StoredOk(st, k, u, feasible, env);
      ghost var changed := RouteChanged(Lookup(slots, d), k, r.Metric(), sources, env.now, env.blocked, env.kChanged);
      RouteChangedReselects(Lookup(slots, d), k, r.Metric(), sources, env.now, env.blocked, env.kChanged);
      Reselect(d, k, r.Metric(), lost, env, changed);
    }

    /** The branch of `update_route` for a route that is already stored. */
    method UpdateStored(u: Update, k: nat, env: Env)
      requires Sorted(slots) && |slots| <= maxSlots && LocalOk(At(u.key.dest), u.key.dest) && u.key in sources
      requires k < |At(u.key.dest).slot| && sources[At(u.key.dest).slot[k].src].routeCount > 0
      modifies this
      ensures |slots| == old(|slots|) && maxSlots == old(maxSlots)
      ensures Becomes(old(slots), slots, u.key.dest, UpdateExisting(old(At(u.key.dest)), k, u, env).slot)
      ensures sources == UpdateExisting(old(At(u.key.dest)), k, u, env).sources
    {
      var r := GetRoute(u.key.dest, k);
      StoreAndSelect(u, k, r, env, At(u.key.dest));
      sources := Release(sources, r.src);
    }

    /** The branch of `update_route` for a route never seen before. */
    method UpdateUnseen(u: Update, env: Env, grows: bool)
      requires Sorted(slots) && |slots| <= maxSlots && LocalOk(At(u.key.dest), u.key.dest) && u.key in sources
      requires Find(At(u.key.dest).slot, u.neigh, u.nexthop) == |At(u.key.dest).slot|
      requires env.inserts == HasRoom(u.key.dest, grows)
      modifies this
      ensures |slots| <= maxSlots
      ensures Becomes(old(slots), slots, u.key.dest, UpdateNew(old(At(u.key.dest)), u, env).slot)
      ensures sources == UpdateNew(old(At(u.key.dest)), u, env).sources
    {
      if u.refmetric >= INFINITY { return; }
      if !UpdateFeasible(sources[u.key], u.seqno, u.refmetric, env.now) && !env.keepUnfeasible { return; }
      if !env.allocates { return; }
      InsertAndConsider(u, env, grows, At(u.key.dest));
    }

    /** The new route is appended and may be installed, or it finds no room. */
    method InsertAndConsider(u: Update, env: Env, grows: bool, ghost st: Local)
      requires Sorted(slots) && |slots| <= maxSlots && st == At(u.key.dest) && LocalOk(st, u.key.dest)
      requires u.key in sources
      requires Find(st.slot, u.neigh, u.nexthop) == |st.slot| && env.inserts == HasRoom(u.key.dest, grows)
      modifies this
      ensures |slots| <= maxSlots && sources == Retain(st.sources, u.key)
      ensures !env.inserts ==> slots == old(slots)
      ensures env.inserts ==> SourcesKnown(st.slot + [NewRoute(u, env)], sources)
      ensures env.inserts ==> Becomes(old(slots), slots, u.key.dest,
        Consider(st.slot + [NewRoute(u, env)], |st.slot|, sources, env.now, env.blocked, env.kChanged))
    {
      var ok := InsertNew(u, env, grows);
      if ok {
        assert Ready(u.key.dest) by { AppendLocal(st, u, env); }
        ConsiderLast(u.key.dest, env);
      }
    }

    /** `consider_route` on the route just appended. */
    method ConsiderLast(d: Destination, env: Env)
      requires Ready(d) && Lookup(slots, d) != []
      modifies this`slots
      ensures |slots| == old(|slots|)
      ensures var l := old(Lookup(slots, d));
        Becomes(old(slots), slots, d, Consider(l, |l| - 1, sources, env.now, env.blocked, env.kChanged))
    {
      var i, _ := FindRouteSlot(d);
      ConsiderRoute(d, |slots[i]| - 1, env.now, env.blocked, env.kChanged);
    }

    method InsertNew(u: Update, env: Env, grows: bool) returns (ok: bool)
      requires Sorted(slots) && |slots| <= maxSlots && u.key in sources
      modifies this
      ensures |slots| <= maxSlots && ok == old(HasRoom(u.key.dest, grows))
      ensures sources == Retain(old(sources), u.key)
      ensures if ok then Becomes(old(slots), slots, u.key.dest, old(Lookup(slots, u.key.dest)) + [NewRoute(u, env)])
              else slots == old(slots)
    {
      sources := Retain(sources, u.key);
      ok := InsertRoute(NewRoute(u, env), grows);
    }

    /** The lookups at the top of `update_route`: the stored route, if any, and the source. */
    method Lookups(u: Update, env: Env) returns (found: bool, k: nat)
      requires Sorted(slots) && |slots| <= maxSlots && LocalOk(At(u.key.dest), u.key.dest)
      modifies this`sources
      ensures k == Find(old(At(u.key.dest)).slot, u.neigh, u.nexthop) && (found <==> k < |old(At(u.key.dest)).slot|)
      ensures sources == SourcesFor(old(At(u.key.dest)), u, env.now)
    {
      k := FindRoute(u.key.dest, u.neigh, u.nexthop);
      var i, _ := FindRouteSlot(u.key.dest);
      found := i >= 0 && k < |slots[i]|;
      if !(found && slots[i][k].src.id == u.key.id) {
        sources := FindSource(sources, u.key, u.seqno, env.now);
      }
    }

    method ApplyUpdate(u: Update, env: Env, grows: bool)
      requires Sorted(slots) && |slots| <= maxSlots && LocalOk(At(u.key.dest), u.key.dest)
      requires env.inserts == HasRoom(u.key.dest, grows)
      modifies this
      ensures |slots| <= maxSlots
      ensures Becomes(old(slots), slots, u.key.dest, UpdateRoute(old(At(u.key.dest)), u, env).slot)
      ensures sources == UpdateRoute(old(At(u.key.dest)), u, env).sources
    {
      if u.key.id == env.myid || env.martian || env.add >= INFINITY { return; }
      ghost var st := At(u.key.dest);
      var found, k := Lookups(u, env);
      if found {
        CountSrcPositive(st.slot, k);
        UpdateStored(u, k, env);
      } else {
        UpdateUnseen(u, env, grows);
      }
    }

    /**
      `update_route`.  The whole effect on one destination is that of the function on its
      list; every other destination is untouched; and the table stays valid exactly when
      no route had to be dropped for want of memory.
    */
    method Update(u: Update, env: Env, grows: bool)
      requires Valid() && env.inserts == HasRoom(u.key.dest, grows)
      modifies this
      ensures Becomes(old(slots), slots, u.key.dest, UpdateRoute(old(At(u.key.dest)), u, env).slot)
      ensures sources == UpdateRoute(old(At(u.key.dest)), u, env).sources
      ensures Valid() <==> !Leaks(old(At(u.key.dest)), u, env)
    {
      ghost var d := u.key.dest;
      ghost var st, t := At(d), slots;
      assert LocalOk(st, d);
      UpdateRouteOk(st, u, env);
      UpdateRouteElsewhere(st, u, env);
      ApplyUpdate(u, env, grows);
      TableOkElsewhere(t, st.sources, slots, sources, d, UpdateRoute(st, u, env).slot);
    }

    /** Uninstalls route `k` and takes it off the list. */
    method Detach(d: Destination, k: nat, shrinks: bool, ghost rest: Slot) returns (r: Route)
      requires Sorted(slots) && |slots| <= maxSlots && k < |Lookup(slots, d)|
      requires forall x <- Lookup(slots, d) :: x.src.dest == d
      requires rest == Lookup(slots, d)[..k] + Lookup(slots, d)[k + 1..]
      modifies this`slots, this`maxSlots
      ensures |slots| <= maxSlots && r == old(Lookup(slots, d))[k] && Becomes(old(slots), slots, d, rest)
    {
      RemoveMarked(Lookup(slots, d), k, false);
      r := GetRoute(d, k);
      if r.installed {
        UninstallRoute(d, k);
      }
      Unlink(d, k, shrinks);
    }

    /** `flush_route` up to the release of the source. */
    method UnlinkRoute(d: Destination, k: nat, env: Env, shrinks: bool, ghost rest: Slot)
      requires Sorted(slots) && |slots| <= maxSlots && k < |Lookup(slots, d)|
      requires forall x <- Lookup(slots, d) :: x.src.dest == d
      requires rest == Lookup(slots, d)[..k] + Lookup(slots, d)[k + 1..] && SlotOk(rest) && SourcesKnown(rest, sources)
      modifies this`slots, this`maxSlots
      ensures |slots| <= maxSlots
      ensures Becomes(old(slots), slots, d,
        if old(Lookup(slots, d))[k].installed then RouteLost(rest, sources, env.now, env.blocked, env.kLost) else rest)
    {
      var r := Detach(d, k, shrinks, rest);
      if r.installed {
        NoteRouteLost(d, env.now, env.blocked, env.kLost);
      }
    }

    /** `flush_route`. */
    method Flush(d: Destination, k: nat, env: Env, shrinks: bool)
      requires Valid() && k < |At(d).slot|
      modifies this
      ensures Valid()
      ensures old(sources[At(d).slot[k].src].routeCount > 0)
      ensures Becomes(old(slots), slots, d, FlushRoute(old(At(d)), k, env).slot)
      ensures sources == FlushRoute(old(At(d)), k, env).sources
    {
      ghost var st, t := At(d), slots;
      assert LocalOk(st, d);
      FlushRouteOk(st, k, env, d);
      RemoveLocal(st, k, d);
      var r := GetRoute(d, k);
      UnlinkRoute(d, k, env, shrinks, st.slot[..k] + st.slot[k + 1..]);
      sources := Release(sources, r.src);
      TableOkElsewhere(t, st.sources, slots, sources, d, FlushRoute(st, k, env).slot);
    }

    method RetractMetric(d: Destination, k: nat, seqno: U16, env: Env)
      requires Sorted(slots) && k < |Lookup(slots, d)| && Lookup(slots, d)[k].src.dest == d
      modifies this`slots
      ensures |slots| == old(|slots|)
      ensures var l := old(Lookup(slots, d));
        Becomes(old(slots), slots, d, l[k := ChangeMetric(l[k].(seqno := seqno), INFINITY, INFINITY, 0, env.kMetric)])
    {
      var r := GetRoute(d, k);
      SetRoute(d, k, r.(seqno := seqno));
      ChangeRouteMetric(d, k, INFINITY, INFINITY, 0, env.kMetric);
    }

    /** `retract_route` and the call of `route_changed` that follows it. */
    method Retract(d: Destination, k: nat, seqno: U16, env: Env)
      requires Valid() && k < |At(d).slot|
      modifies this`slots
      ensures Valid()
      ensures Becomes(old(slots), slots, d, RetractRoute(old(At(d)), k, seqno, env).slot)
    {
      ghost var st, t := At(d), slots;
      assert LocalOk(st, d);
      RetractRouteOk(st, k, seqno, env, d);
      var r := GetRoute(d, k);
      if r.refmetric >= INFINITY { return; }
      RetractMetric(d, k, seqno, env);
      RewriteLocal(st, k, ChangeMetric(r.(seqno := seqno), INFINITY, INFINITY, 0, env.kMetric), d);
      if r.Metric() < INFINITY {
        NoteRouteChanged(d, k, r.Metric(), env.now, env.blocked, env.kChanged);
      }
      TableOkElsewhere(t, sources, slots, sources, d, RetractRoute(st, k, seqno, env).slot);
    }

    /** `update_route_metric`. */
    method Remetric(d: Destination, k: nat, env: Env)
      requires Valid() && k < |At(d).slot|
      modifies this`slots
      ensures Valid()
      ensures Becomes(old(slots), slots, d, UpdateRouteMetric(old(At(d)), k, env).slot)
    {
      ghost var st, t := At(d), slots;
      assert LocalOk(st, d);
      UpdateRouteMetricOk(st, k, env, d);
      var r := GetRoute(d, k);
      if r.Expired(env.now) {
        Retract(d, k, SeqnoPlus(sources[r.src].seqno, 1), env);
        return;
      }
      ChangeRouteMetric(d, k, r.refmetric, env.cost, env.add, env.kMetric);
      RewriteLocal(st, k, ChangeMetric(r, r.refmetric, env.cost, env.add, env.kMetric), d);
      var r' := GetRoute(d, k);
      if r'.Metric() != r.Metric() {
        NoteRouteChanged(d, k, r.Metric(), env.now, env.blocked, env.kChanged);
      }
      TableOkElsewhere(t, sources, slots, sources, d, UpdateRouteMetric(st, k, env).slot);
    }

    /** `expire_sources`: drops what is stale and unused, and nothing a route still points to. */
    method ExpireSources(now: int)
      requires Valid()
      modifies this`sources
      ensures Valid()
      ensures forall l <- slots, r <- l :: r.src in sources
      ensures forall key | key in old(sources) ::
        key in sources <==> old(sources)[key].routeCount > 0 || now - old(sources)[key].time <= 200
      ensures forall key | key in sources ::
        key in old(sources) && sources[key] == old(sources)[key].(time := Min(old(sources)[key].time, now))
    {
      var todo := sources.Keys;
      while todo != {}
        invariant todo <= old(sources).Keys
        invariant forall key | key in todo :: key in sources && sources[key] == old(sources)[key]
        invariant forall key | key in old(sources) && key !in todo ::
          key in sources <==> old(sources)[key].routeCount > 0 || old(sources)[key].time >= now - SOURCE_GC_TIME
        invariant forall key | key in sources && key !in todo ::
          key in old(sources) && sources[key] == old(sources)[key].(time := Min(old(sources)[key].time, now))
        invariant sources.Keys <= old(sources).Keys
      {
        var key :| key in todo;
        todo := todo - {key};
        if sources[key].time > now {
          sources := sources[key := sources[key].(time := now)];
        }
        if Stale(sources[key], now) {
          sources := FlushSource(sources, key);
        }
      }
      ExpiredOk(slots, old(sources), sources);
    }
  }

  lemma ExpiredOk(t: Table, sources: SourceTable, sources': SourceTable)
    requires TableOk(t, sources)
    requires forall key | key in sources && sources[key].routeCount > 0 :: key in sources'
    requires forall key | key in sources' :: key in sources && sources'[key].routeCount == sources[key].routeCount
    ensures TableOk(t, sources')
    ensures forall l <- t, r <- l :: r.src in sources'
  {
    forall d ensures LocalOk(Local(sources', Lookup(t, d)), d) {
      var l := Lookup(t, d);
      assert LocalOk(Local(sources, l), d);
      forall r <- l ensures r.src in sources' {
        var i :| 0 <= i < |l| && l[i] == r;
        CountSrcPositive(l, i);
      }
    }
    forall l <- t, r <- l ensures r.src in sources' {
      LookupIs(t, l);
      assert LocalOk(Local(sources', Lookup(t, DestOf(l))), DestOf(l));
    }
  }
}

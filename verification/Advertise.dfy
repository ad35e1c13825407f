/**
  Pending advertisements to one peer (quagga-srx/bgpd/bgp_advertise.c): an
  adjacency per destination, at most one advertisement waiting for each, FIFOs
  for updates and withdrawals, and advertise-attributes that bundle the updates
  with equal attributes and are counted by reference.
*/
module Advertise {
  import opened Lists

  type Node = nat    // a destination in the routing table
  type Attr = nat    // an interned attribute

  datatype Option<T> = None | Some(value: T)

  /** Pointers to structures: a fresh number per allocation, dangling once it has left its map. */
  type AdvId = nat
  type BaaId = nat

  datatype Baa = Baa(attr: Option<Attr>, refcnt: nat, adv: seq<AdvId>)
  datatype Adv = Adv(rn: Node, baa: Option<BaaId>)
  datatype Adj = Adj(attr: Option<Attr>, adv: Option<AdvId>)

  datatype Sync = Sync(
    hash: map<Attr, BaaId>,
    baas: map<BaaId, Baa>,
    advs: map<AdvId, Adv>,
    adjs: map<Node, Adj>,
    update: seq<AdvId>,
    withdraw: seq<AdvId>,
    unused: nat)

  const EMPTY := Sync(map[], map[], map[], map[], [], [], 0)

  // ---------- Operations ----------

  /** `bgp_advertise_unintern`. */
  function Unintern(s: Sync, b: BaaId): Sync
    requires b in s.baas
  {
    var baa := s.baas[b];
    var refcnt := if baa.refcnt > 0 then baa.refcnt - 1 else 0;
    if refcnt > 0 && baa.attr.Some? then s.(baas := s.baas[b := baa.(refcnt := refcnt)])
    else s.(hash := if baa.attr.Some? then s.hash - {baa.attr.value} else s.hash, baas := s.baas - {b})
  }

  /** `bgp_advertise_delete` on the list of an advertise-attribute. */
  function Unlink(s: Sync, b: BaaId, a: AdvId): Sync
    requires b in s.baas
  {
    s.(baas := s.baas[b := s.baas[b].(adv := Without(s.baas[b].adv, a))])
  }

  predicate Pending(s: Sync, n: Node)
  {
    n in s.adjs && s.adjs[n].adv.Some? && s.adjs[n].adv.value in s.advs
    && (s.advs[s.adjs[n].adv.value].baa.Some? ==> s.advs[s.adjs[n].adv.value].baa.value in s.baas)
  }

  /** `bgp_advertise_clean`. */
  function Clean(s: Sync, n: Node): Sync
    requires Pending(s, n)
  {
    var a := s.adjs[n].adv.value;
    var baa := s.advs[a].baa;
    var s1 := if baa.Some? then Unintern(Unlink(s, baa.value, a), baa.value) else s;
    s1.(advs := s1.advs - {a}, adjs := s1.adjs[n := s1.adjs[n].(adv := None)],
        update := Without(s1.update, a), withdraw := Without(s1.withdraw, a))
  }

  /** ... and the next candidate that it returns. */
  function Next(s: Sync, n: Node): Option<AdvId>
    requires Pending(s, n)
  {
    var a := s.adjs[n].adv.value;
    if s.advs[a].baa.None? then None
    else
      var rest := Without(s.baas[s.advs[a].baa.value].adv, a);
      if rest == [] then None else Some(rest[0])
  }

  /** `bgp_advertise_intern`, or a new advertise-attribute of its own when there is no attribute. */
  function Intern(s: Sync, attr: Option<Attr>): (r: (Sync, BaaId))
    requires attr.Some? && attr.value in s.hash ==> s.hash[attr.value] in s.baas
    ensures r.1 in r.0.baas
  {
    if attr.Some? && attr.value in s.hash then
      var b := s.hash[attr.value];
      (s.(baas := s.baas[b := s.baas[b].(refcnt := s.baas[b].refcnt + 1)]), b)
    else
      (s.(hash := if attr.Some? then s.hash[attr.value := s.unused] else s.hash,
          baas := s.baas[s.unused := Baa(attr, if attr.Some? then 1 else 0, [])],
          unused := s.unused + 1), s.unused)
  }

  function Adjacency(s: Sync, n: Node): Sync { if n in s.adjs then s else s.(adjs := s.adjs[n := Adj(None, None)]) }

  function CleanIfPending(s: Sync, n: Node): Sync { if Pending(s, n) then Clean(s, n) else s }

  /** The new advertisement of `bgp_adj_out_set`, on the list of its attribute and on the update FIFO. */
  function Announce(s: Sync, n: Node, attr: Option<Attr>): Sync
    requires n in s.adjs && (attr.Some? && attr.value in s.hash ==> s.hash[attr.value] in s.baas)
  {
    var (s1, b) := Intern(s, attr);
    var a := s1.unused;
    s1.(baas := s1.baas[b := s1.baas[b].(adv := [a] + s1.baas[b].adv)],
        advs := s1.advs[a := Adv(n, Some(b))],
        adjs := s1.adjs[n := s1.adjs[n].(adv := Some(a))],
        update := s1.update + [a],
        unused := a + 1)
  }

  /** The new advertisement of `bgp_adj_out_unset`. */
  function Withdraw(s: Sync, n: Node): Sync
    requires n in s.adjs
  {
    var a := s.unused;
    s.(advs := s.advs[a := Adv(n, None)],
       adjs := s.adjs[n := s.adjs[n].(adv := Some(a))],
       withdraw := s.withdraw + [a],
       unused := a + 1)
  }

  // ---------- What every operation keeps ----------

  /** Adjacencies and advertisements point at each other. */
  ghost predicate Linked(adjs: map<Node, Adj>, advs: map<AdvId, Adv>)
  {
    && (forall n | n in adjs && adjs[n].adv.Some? :: adjs[n].adv.value in advs && advs[adjs[n].adv.value].rn == n)
    && (forall a | a in advs :: advs[a].rn in adjs && adjs[advs[a].rn].adv == Some(a))
  }

  /** Every advertisement is on exactly one FIFO, once, and nothing else is. */
  ghost predicate Queued(update: seq<AdvId>, withdraw: seq<AdvId>, advs: map<AdvId, Adv>)
  {
    && Distinct(update) && Distinct(withdraw)
    && (forall a :: a in update <==> a in advs && advs[a].baa.Some?)
    && (forall a :: a in withdraw <==> a in advs && advs[a].baa.None?)
  }

  /** The list of an advertise-attribute holds just the advertisements that point to it. */
  ghost predicate Bundled(advs: map<AdvId, Adv>, baas: map<BaaId, Baa>)
  {
    && (forall a | a in advs && advs[a].baa.Some? :: advs[a].baa.value in baas && a in baas[advs[a].baa.value].adv)
    && (forall b | b in baas :: Distinct(baas[b].adv) && baas[b].adv != [])
    && (forall b, a | b in baas && a in baas[b].adv :: a in advs && advs[a].baa == Some(b))
  }

  /**
    The count of an interned advertise-attribute is the length of its list; one without attribute has
    one advertisement.
  */
  ghost predicate Counted(baas: map<BaaId, Baa>, hash: map<Attr, BaaId>)
  {
    && (forall b | b in baas && baas[b].attr.Some? ::
          baas[b].refcnt == |baas[b].adv| && baas[b].attr.value in hash && hash[baas[b].attr.value] == b)
    && (forall b | b in baas && baas[b].attr.None? :: baas[b].refcnt == 0 && |baas[b].adv| == 1)
    && (forall x | x in hash :: hash[x] in baas && baas[hash[x]].attr == Some(x))
  }

  ghost predicate Below<T>(m: map<nat, T>, unused: nat) { forall k | k in m :: k < unused }

  ghost predicate Ok(s: Sync)
  {
    && Linked(s.adjs, s.advs)
    && Queued(s.update, s.withdraw, s.advs)
    && Bundled(s.advs, s.baas)
    && Counted(s.baas, s.hash)
    && Below(s.advs, s.unused) && Below(s.baas, s.unused)
  }

  // ---------- Piece by piece ----------

  lemma LinkedClean(adjs: map<Node, Adj>, advs: map<AdvId, Adv>, n: Node)
    requires Linked(adjs, advs) && n in adjs && adjs[n].adv.Some?
    ensures Linked(adjs[n := adjs[n].(adv := None)], advs - {adjs[n].adv.value})
  {
  }

  lemma LinkedAdd(adjs: map<Node, Adj>, advs: map<AdvId, Adv>, n: Node, a: AdvId, baa: Option<BaaId>)
    requires Linked(adjs, advs) && n in adjs && adjs[n].adv.None? && a !in advs
    ensures Linked(adjs[n := adjs[n].(adv := Some(a))], advs[a := Adv(n, baa)])
  {
  }

  lemma QueuedClean(update: seq<AdvId>, withdraw: seq<AdvId>, advs: map<AdvId, Adv>, a: AdvId)
    requires Queued(update, withdraw, advs)
    ensures Queued(Without(update, a), Without(withdraw, a), advs - {a})
  {
    WithoutMembers(update, a);
    WithoutMembers(withdraw, a);
  }

  lemma QueuedAdd(update: seq<AdvId>, withdraw: seq<AdvId>, advs: map<AdvId, Adv>, a: AdvId, adv: Adv)
    requires Queued(update, withdraw, advs) && a !in advs
    ensures adv.baa.Some? ==> Queued(update + [a], withdraw, advs[a := adv])
    ensures adv.baa.None? ==> Queued(update, withdraw + [a], advs[a := adv])
  {
    assert a !in update && a !in withdraw;
    SnocDistinct(update, a);
    SnocDistinct(withdraw, a);
  }

  lemma BundledWithdrawn(advs: map<AdvId, Adv>, baas: map<BaaId, Baa>, a: AdvId)
    requires Bundled(advs, baas) && a in advs && advs[a].baa.None?
    ensures Bundled(advs - {a}, baas)
  {
  }

  lemma BundledShrinks(advs: map<AdvId, Adv>, baas: map<BaaId, Baa>, a: AdvId, b: BaaId, refcnt: nat)
    requires Bundled(advs, baas) && a in advs && advs[a].baa == Some(b)
    requires Without(baas[b].adv, a) != []
    ensures Bundled(advs - {a}, baas[b := Baa(baas[b].attr, refcnt, Without(baas[b].adv, a))])
  {
    WithoutMembers(baas[b].adv, a);
  }

  lemma BundledFreed(advs: map<AdvId, Adv>, baas: map<BaaId, Baa>, a: AdvId, b: BaaId)
    requires Bundled(advs, baas) && a in advs && advs[a].baa == Some(b)
    requires Without(baas[b].adv, a) == []
    ensures Bundled(advs - {a}, baas - {b})
  {
    WithoutMembers(baas[b].adv, a);
    forall c | c in advs - {a} && advs[c].baa.Some? ensures advs[c].baa.value in baas - {b} {
      assert c in baas[advs[c].baa.value].adv;
      assert c !in Without(baas[b].adv, a);
    }
  }

  lemma BundledAdd(advs: map<AdvId, Adv>, baas: map<BaaId, Baa>, a: AdvId, n: Node, b: BaaId, baa: Baa)
    requires Bundled(advs, baas) && a !in advs
    requires b in baas ==> baa.adv == [a] + baas[b].adv
    requires b !in baas ==> baa.adv == [a]
    ensures Bundled(advs[a := Adv(n, Some(b))], baas[b := baa])
  {
    if b in baas {
      assert a !in baas[b].adv;
      SnocDistinct(baas[b].adv, a);
    }
  }

  lemma CountedShrinks(baas: map<BaaId, Baa>, hash: map<Attr, BaaId>, b: BaaId, rest: seq<AdvId>)
    requires Counted(baas, hash) && b in baas && baas[b].attr.Some?
    ensures Counted(baas[b := Baa(baas[b].attr, |rest|, rest)], hash)
  {
  }

  lemma CountedFreed(baas: map<BaaId, Baa>, hash: map<Attr, BaaId>, b: BaaId)
    requires Counted(baas, hash) && b in baas
    ensures Counted(baas - {b}, if baas[b].attr.Some? then hash - {baas[b].attr.value} else hash)
  {
  }

  lemma CountedNew(baas: map<BaaId, Baa>, hash: map<Attr, BaaId>, b: BaaId, attr: Option<Attr>, a: AdvId)
    requires Counted(baas, hash) && b !in baas && (attr.Some? ==> attr.value !in hash)
    ensures Counted(baas[b := Baa(attr, if attr.Some? then 1 else 0, [a])],
        if attr.Some? then hash[attr.value := b] else hash)
  {
  }

  // ---------- Operation by operation ----------

  lemma PendingWhenOk(s: Sync, n: Node)
    requires Ok(s)
    ensures Pending(s, n) <==> n in s.adjs && s.adjs[n].adv.Some?
  {
  }

  /** The advertise-attribute is freed exactly when its list has become empty. */
  lemma CleanBaas(s: Sync, n: Node, a: AdvId, b: BaaId, rest: seq<AdvId>)
    requires Pending(s, n) && s.adjs[n].adv == Some(a) && s.advs[a].baa == Some(b) && rest == Without(s.baas[b].adv, a)
    requires Bundled(s.advs, s.baas) && Counted(s.baas, s.hash)
    ensures rest == [] ==> Clean(s, n).baas == s.baas - {b}
    ensures rest == [] ==> Clean(s, n).hash == if s.baas[b].attr.Some? then s.hash - {s.baas[b].attr.value} else s.hash
    ensures rest != [] ==> s.baas[b].attr.Some? && Clean(s, n).baas == s.baas[b := Baa(s.baas[b].attr, |rest|, rest)]
    ensures rest != [] ==> Clean(s, n).hash == s.hash
  {
    WithoutMembers(s.baas[b].adv, a);
    assert Unlink(s, b, a).baas - {b} == s.baas - {b};
  }

  lemma CleanBundled(s: Sync, n: Node)
    requires Pending(s, n) && Bundled(s.advs, s.baas) && Counted(s.baas, s.hash)
    ensures Bundled(Clean(s, n).advs, Clean(s, n).baas) && Counted(Clean(s, n).baas, Clean(s, n).hash)
    ensures Clean(s, n).baas.Keys <= s.baas.Keys
  {
    var a := s.adjs[n].adv.value;
    if s.advs[a].baa.None? {
      BundledWithdrawn(s.advs, s.baas, a);
    } else {
      var b := s.advs[a].baa.value;
      var rest := Without(s.baas[b].adv, a);
      CleanBaas(s, n, a, b, rest);
      if rest == [] {
        BundledFreed(s.advs, s.baas, a, b);
        CountedFreed(s.baas, s.hash, b);
      } else {
        BundledShrinks(s.advs, s.baas, a, b, |rest|);
        CountedShrinks(s.baas, s.hash, b, rest);
      }
    }
  }

  lemma CleanOk(s: Sync, n: Node)
    requires Ok(s) && Pending(s, n)
    ensures Ok(Clean(s, n))
  {
    LinkedClean(s.adjs, s.advs, n);
    QueuedClean(s.update, s.withdraw, s.advs, s.adjs[n].adv.value);
    CleanBundled(s, n);
  }

  /**
    The candidate that `bgp_advertise_clean` returns is alive and has the attribute of the one
    cleaned, whose advertise-attribute is alive too; there is none only if no other had it.
  */
  lemma CleanNext(s: Sync, n: Node)
    requires Ok(s) && Pending(s, n)
    ensures var baa, c, next := s.advs[s.adjs[n].adv.value].baa, Clean(s, n), Next(s, n);
      && (next.Some? ==> (baa.Some? && next.value in c.advs && c.advs[next.value].baa == baa))
      && (next.Some? ==> (baa.value in c.baas && c.baas[baa.value].attr == s.baas[baa.value].attr))
      && (next.None? && baa.Some? ==> (baa.value !in c.baas && forall a | a in c.advs :: c.advs[a].baa != baa))
  {
    var a := s.adjs[n].adv.value;
    if s.advs[a].baa.Some? {
      var b := s.advs[a].baa.value;
      var rest := Without(s.baas[b].adv, a);
      CleanBaas(s, n, a, b, rest);
      CleanBundled(s, n);
      if rest != [] { assert rest[0] in rest; }
    }
  }

  /** The new entries of `Announce`; `b` is the advertise-attribute, `a` the advertisement. */
  lemma AnnouncePieces(s: Sync, n: Node, a: AdvId, b: BaaId, baa: Baa)
    requires Ok(s) && n in s.adjs && s.adjs[n].adv.None? && s.unused <= a
    requires baa.adv == [a] + (if b in s.baas then s.baas[b].adv else [])
    ensures var advs := s.advs[a := Adv(n, Some(b))];
      && Linked(s.adjs[n := s.adjs[n].(adv := Some(a))], advs)
      && Queued(s.update + [a], s.withdraw, advs)
      && Bundled(advs, s.baas[b := baa])
  {
    LinkedAdd(s.adjs, s.advs, n, a, Some(b));
    QueuedAdd(s.update, s.withdraw, s.advs, a, Adv(n, Some(b)));
    BundledAdd(s.advs, s.baas, a, n, b, baa);
  }

  /** `Announce` field by field. */
  lemma AnnounceFields(s: Sync, n: Node, attr: Option<Attr>, a: AdvId, b: BaaId, baa: Baa)
    requires n in s.adjs && (attr.Some? && attr.value in s.hash ==> s.hash[attr.value] in s.baas)
    requires attr.Some? && attr.value in s.hash ==>
      && b == s.hash[attr.value] && a == s.unused
      && baa == Baa(s.baas[b].attr, s.baas[b].refcnt + 1, [a] + s.baas[b].adv)
    requires !(attr.Some? && attr.value in s.hash) ==>
      (b == s.unused && a == b + 1 && baa == Baa(attr, if attr.Some? then 1 else 0, [a]))
    ensures var r := Announce(s, n, attr);
      && r.adjs == s.adjs[n := s.adjs[n].(adv := Some(a))] && r.advs == s.advs[a := Adv(n, Some(b))]
      && r.baas == s.baas[b := baa] && r.update == s.update + [a] && r.withdraw == s.withdraw && r.unused == a + 1
      && r.hash == if attr.Some? && attr.value !in s.hash then s.hash[attr.value := b] else s.hash
  {
    var (s1, b1) := Intern(s, attr);
    assert [a] + [] == [a];
    assert s1.baas[b := baa] == s.baas[b := baa];
  }

  lemma AnnounceKnown(s: Sync, n: Node, x: Attr)
    requires Ok(s) && n in s.adjs && s.adjs[n].adv.None? && x in s.hash
    ensures Ok(Announce(s, n, Some(x)))
  {
    var a, b := s.unused, s.hash[x];
    var baa := Baa(s.baas[b].attr, s.baas[b].refcnt + 1, [a] + s.baas[b].adv);
    AnnouncePieces(s, n, a, b, baa);
    CountedShrinks(s.baas, s.hash, b, baa.adv);
    AnnounceFields(s, n, Some(x), a, b, baa);
  }

  lemma AnnounceNew(s: Sync, n: Node, attr: Option<Attr>)
    requires Ok(s) && n in s.adjs && s.adjs[n].adv.None? && (attr.Some? ==> attr.value !in s.hash)
    ensures Ok(Announce(s, n, attr))
  {
    var a, b := s.unused + 1, s.unused;
    var baa := Baa(attr, if attr.Some? then 1 else 0, [a]);
    AnnouncePieces(s, n, a, b, baa);
    CountedNew(s.baas, s.hash, b, attr, a);
    AnnounceFields(s, n, attr, a, b, baa);
  }

  lemma AnnounceOk(s: Sync, n: Node, attr: Option<Attr>)
    requires Ok(s) && n in s.adjs && s.adjs[n].adv.None?
    ensures Ok(Announce(s, n, attr))
  {
    if attr.Some? && attr.value in s.hash { AnnounceKnown(s, n, attr.value); } else { AnnounceNew(s, n, attr); }
  }

  lemma WithdrawOk(s: Sync, n: Node)
    requires Ok(s) && n in s.adjs && s.adjs[n].adv.None?
    ensures Ok(Withdraw(s, n))
  {
    LinkedAdd(s.adjs, s.advs, n, s.unused, None);
    QueuedAdd(s.update, s.withdraw, s.advs, s.unused, Adv(n, None));
  }

  // ---------- What a peer is told about a destination ----------

  datatype Waiting = Idle | Update(attr: Option<Attr>) | Withdrawal

  /** What was last sent for a destination, and what is waiting to be sent. */
  datatype Entry = Entry(sent: Option<Attr>, waiting: Waiting)

  function WaitingAt(s: Sync, n: Node): Waiting
  {
    if !Pending(s, n) then Idle
    else
      var baa := s.advs[s.adjs[n].adv.value].baa;
      if baa.None? then Withdrawal else Update(s.baas[baa.value].attr)
  }

  function At(s: Sync, n: Node): Option<Entry>
  {
    if n in s.adjs then Some(Entry(s.adjs[n].attr, WaitingAt(s, n))) else None
  }

  /** `bgp_adj_out_set`. */
  function Set(s: Sync, n: Node, attr: Option<Attr>): Sync
    requires Ok(s)
  {
    var s1 := CleanIfPending(Adjacency(s, n), n);
    Cleaned(Adjacency(s, n), n);
    Announce(s1, n, attr)
  }

  function Drop(s: Sync, n: Node): Sync { s.(adjs := s.adjs - {n}) }

  /** `bgp_adj_out_unset`. */
  function Unset(s: Sync, n: Node): Sync
    requires Ok(s)
  {
    if n !in s.adjs then s
    else
      var s1 := CleanIfPending(s, n);
      if s1.adjs[n].attr.Some? then Withdraw(s1, n) else Drop(s1, n)
  }

  /** `bgp_adj_out_remove`. */
  function Remove(s: Sync, n: Node): Sync
    requires Ok(s)
  {
    if n !in s.adjs then s else Drop(CleanIfPending(s, n), n)
  }

  /** What `bgp_update_packet` does once the update is in the packet. */
  function Send(s: Sync, n: Node): Sync
    requires Ok(s)
  {
    if WaitingAt(s, n).Update? && WaitingAt(s, n).attr.Some?
    then Clean(s.(adjs := s.adjs[n := s.adjs[n].(attr := WaitingAt(s, n).attr)]), n)
    else s
  }

  /** What is known about a destination depends on its adjacency, advertisement and attribute only. */
  lemma SameAt(s: Sync, c: Sync, m: Node)
    requires m in s.adjs <==> m in c.adjs
    requires m in s.adjs ==> c.adjs[m] == s.adjs[m]
    requires m in s.adjs && s.adjs[m].adv.Some? ==>
      && s.adjs[m].adv.value in s.advs && s.adjs[m].adv.value in c.advs
      && s.advs[s.adjs[m].adv.value] == c.advs[s.adjs[m].adv.value]
    requires m in s.adjs && s.adjs[m].adv.Some? && s.advs[s.adjs[m].adv.value].baa.Some? ==>
      var b := s.advs[s.adjs[m].adv.value].baa.value; b in s.baas && b in c.baas && s.baas[b].attr == c.baas[b].attr
    ensures At(s, m) == At(c, m)
  {
  }

  lemma CleanOthers(s: Sync, n: Node, m: Node)
    requires Ok(s) && Pending(s, n) && m != n
    ensures At(Clean(s, n), m) == At(s, m)
  {
    var c := Clean(s, n);
    var a := s.adjs[n].adv.value;
    assert s.advs[a].rn == n;
    CleanBundled(s, n);
    if m in s.adjs && s.adjs[m].adv.Some? {
      assert s.advs[s.adjs[m].adv.value].rn == m;
      if s.advs[a].baa.Some? {
        var b := s.advs[a].baa.value;
        CleanBaas(s, n, a, b, Without(s.baas[b].adv, a));
      }
    }
    SameAt(s, c, m);
  }

  lemma CleanAt(s: Sync, n: Node, m: Node)
    requires Ok(s) && Pending(s, n)
    ensures At(Clean(s, n), m) == if m == n then Some(Entry(s.adjs[n].attr, Idle)) else At(s, m)
  {
    if m != n { CleanOthers(s, n, m); }
  }

  lemma Cleaned(s: Sync, n: Node)
    requires Ok(s) && n in s.adjs
    ensures var c := CleanIfPending(s, n);
      Ok(c) && n in c.adjs && c.adjs[n] == Adj(s.adjs[n].attr, None)
  {
    PendingWhenOk(s, n);
    if Pending(s, n) { CleanOk(s, n); }
  }

  lemma CleanedAt(s: Sync, n: Node, m: Node)
    requires Ok(s) && n in s.adjs
    ensures At(CleanIfPending(s, n), m) == if m == n then Some(Entry(s.adjs[n].attr, Idle)) else At(s, m)
  {
    PendingWhenOk(s, n);
    if Pending(s, n) { CleanAt(s, n, m); }
  }

  lemma AnnounceAt(s: Sync, n: Node, attr: Option<Attr>, m: Node)
    requires Ok(s) && n in s.adjs && s.adjs[n].adv.None?
    ensures At(Announce(s, n, attr), m) == if m == n then Some(Entry(s.adjs[n].attr, Update(attr))) else At(s, m)
  {
    var known := attr.Some? && attr.value in s.hash;
    var b := if known then s.hash[attr.value] else s.unused;
    var a := if known then s.unused else b + 1;
    var baa := if known then Baa(s.baas[b].attr, s.baas[b].refcnt + 1, [a] + s.baas[b].adv)
               else Baa(attr, if attr.Some? then 1 else 0, [a]);
    AnnounceFields(s, n, attr, a, b, baa);
    if m != n { SameAt(s, Announce(s, n, attr), m); }
  }

  lemma WithdrawAt(s: Sync, n: Node, m: Node)
    requires Ok(s) && n in s.adjs && s.adjs[n].adv.None?
    ensures At(Withdraw(s, n), m) == if m == n then Some(Entry(s.adjs[n].attr, Withdrawal)) else At(s, m)
  {
    if m != n && m in s.adjs && s.adjs[m].adv.Some? { assert s.adjs[m].adv.value in s.advs; }
  }

  // ---------- Every run ----------

  datatype Op =
    | SetOp(n: Node, attr: Option<Attr>)
    | UnsetOp(n: Node)
    | SendOp(n: Node)
    | RemoveOp(n: Node)

  function Step(s: Sync, op: Op): Sync
    requires Ok(s)
  {
    match op
    case SetOp(n, attr) => Set(s, n, attr)
    case UnsetOp(n) => Unset(s, n)
    case SendOp(n) => Send(s, n)
    case RemoveOp(n) => Remove(s, n)
  }

  /** What one operation means for its own destination. */
  function EntryAfter(e: Option<Entry>, op: Op): Option<Entry>
  {
    match op
    case SetOp(_, attr) => Some(Entry(if e.Some? then e.value.sent else None, Update(attr)))
    case UnsetOp(_) => if e.Some? && e.value.sent.Some? then Some(Entry(e.value.sent, Withdrawal)) else None
    case SendOp(_) =>
      if e.Some? && e.value.waiting.Update? && e.value.waiting.attr.Some?
      then Some(Entry(e.value.waiting.attr, Idle))
      else e
    case RemoveOp(_) => None
  }

  lemma SetStep(s: Sync, n: Node, attr: Option<Attr>, m: Node)
    requires Ok(s)
    ensures Ok(Set(s, n, attr))
    ensures At(Set(s, n, attr), m) == if m == n then EntryAfter(At(s, m), SetOp(n, attr)) else At(s, m)
  {
    var s0 := Adjacency(s, n);
    AdjacencyAt(s, n, m);
    Cleaned(s0, n);
    CleanedAt(s0, n, m);
    var s1 := CleanIfPending(s0, n);
    AnnounceOk(s1, n, attr);
    AnnounceAt(s1, n, attr, m);
  }

  lemma AdjacencyAt(s: Sync, n: Node, m: Node)
    requires Ok(s)
    ensures Ok(Adjacency(s, n))
    ensures m == n ==> At(Adjacency(s, n), m) == Some(if n in s.adjs then At(s, n).value else Entry(None, Idle))
    ensures m != n ==> At(Adjacency(s, n), m) == At(s, m)
  {
    if m != n { SameAt(s, Adjacency(s, n), m); }
  }

  lemma DropOk(s: Sync, n: Node, m: Node)
    requires Ok(s) && n in s.adjs && s.adjs[n].adv.None?
    ensures Ok(Drop(s, n)) && At(Drop(s, n), m) == if m == n then None else At(s, m)
  {
    if m != n { SameAt(s, Drop(s, n), m); }
  }

  lemma UnsetStep(s: Sync, n: Node, m: Node)
    requires Ok(s)
    ensures Ok(Unset(s, n))
    ensures At(Unset(s, n), m) == if m == n then EntryAfter(At(s, m), UnsetOp(n)) else At(s, m)
  {
    if n in s.adjs {
      Cleaned(s, n);
      CleanedAt(s, n, m);
      var s1 := CleanIfPending(s, n);
      WithdrawOk(s1, n);
      WithdrawAt(s1, n, m);
      DropOk(s1, n, m);
    }
  }

  lemma RemoveStep(s: Sync, n: Node, m: Node)
    requires Ok(s)
    ensures Ok(Remove(s, n))
    ensures At(Remove(s, n), m) == if m == n then None else At(s, m)
  {
    if n in s.adjs {
      Cleaned(s, n);
      CleanedAt(s, n, m);
      DropOk(CleanIfPending(s, n), n, m);
    }
  }

  lemma SendStep(s: Sync, n: Node, m: Node)
    requires Ok(s)
    ensures Ok(Send(s, n))
    ensures At(Send(s, n), m) == if m == n then EntryAfter(At(s, m), SendOp(n)) else At(s, m)
  {
    var w := WaitingAt(s, n);
    if w.Update? && w.attr.Some? {
      var s1 := s.(adjs := s.adjs[n := s.adjs[n].(attr := w.attr)]);
      assert Ok(s1);
      CleanOk(s1, n);
      CleanAt(s1, n, m);
      if m != n { SameAt(s, s1, m); }
    }
  }

  /** Every operation keeps the invariant and touches only its own destination. */
  lemma StepOk(s: Sync, op: Op, m: Node)
    requires Ok(s)
    ensures Ok(Step(s, op))
    ensures At(Step(s, op), m) == if m == op.n then EntryAfter(At(s, m), op) else At(s, m)
  {
    match op
    case SetOp(n, attr) => SetStep(s, n, attr, m);
    case UnsetOp(n) => UnsetStep(s, n, m);
    case SendOp(n) => SendStep(s, n, m);
    case RemoveOp(n) => RemoveStep(s, n, m);
  }

  lemma EmptyOk()
    ensures Ok(EMPTY)
  {
  }

  /** A run from the start; an operation that does not apply changes nothing. */
  ghost function After(ops: seq<Op>): (s: Sync)
    ensures Ok(s)
  {
    if ops == [] then EmptyOk(); EMPTY
    else
      var k := |ops| - 1;
      StepOk(After(ops[..k]), ops[k], 0);
      Step(After(ops[..k]), ops[k])
  }

  /** The operations on one destination, and on no other, decide about it. */
  function History(ops: seq<Op>, n: Node): Option<Entry>
  {
    if ops == [] then None
    else
      var k := |ops| - 1;
      var e := History(ops[..k], n);
      if ops[k].n == n then EntryAfter(e, ops[k]) else e
  }

  lemma {:induction false} RunFollowsHistory(ops: seq<Op>, n: Node)
    ensures At(After(ops), n) == History(ops, n)
  {
    if ops != [] {
      var k := |ops| - 1;
      RunFollowsHistory(ops[..k], n);
      StepOk(After(ops[..k]), ops[k], n);
    }
  }

  /** How often destination `n` occurs on a FIFO. */
  function CountOn(s: Sync, fifo: seq<AdvId>, n: Node): nat
  {
    if fifo == [] then 0
    else (if fifo[0] in s.advs && s.advs[fifo[0]].rn == n then 1 else 0) + CountOn(s, fifo[1..], n)
  }

  lemma {:induction false} CountAdvertisement(s: Sync, fifo: seq<AdvId>, n: Node)
    requires Linked(s.adjs, s.advs) && Distinct(fifo) && forall a | a in fifo :: a in s.advs
    ensures CountOn(s, fifo, n) == if n in s.adjs && s.adjs[n].adv.Some? && s.adjs[n].adv.value in fifo then 1 else 0
  {
    if fifo != [] {
      var t := fifo[1..];
      assert fifo == [fifo[0]] + t && fifo[0] !in t;
      CountAdvertisement(s, t, n);
    }
  }

  /**
    After any sequence of operations, a destination stands once on the update FIFO if its last
    operation left an update waiting, once on the withdraw FIFO if it left a withdrawal, and
    on neither otherwise; and every interned advertise-attribute is counted by its list.
  */
  lemma RunQueues(ops: seq<Op>, n: Node)
    ensures var s, e := After(ops), History(ops, n);
      && CountOn(s, s.update, n) == (if e.Some? && e.value.waiting.Update? then 1 else 0)
      && CountOn(s, s.withdraw, n) == (if e.Some? && e.value.waiting.Withdrawal? then 1 else 0)
      && (forall b | b in s.baas && s.baas[b].attr.Some? :: s.baas[b].refcnt == |s.baas[b].adv| > 0)
  {
    var s := After(ops);
    RunFollowsHistory(ops, n);
    PendingWhenOk(s, n);
    CountAdvertisement(s, s.update, n);
    CountAdvertisement(s, s.withdraw, n);
  }

  // ---------- First in, first out ----------

  /** The destinations that a FIFO is about, in its order. */
  function Dests(advs: map<AdvId, Adv>, fifo: seq<AdvId>): (q: seq<Node>)
    requires forall a <- fifo :: a in advs
    ensures |q| == |fifo| && forall i | 0 <= i < |fifo| :: q[i] == advs[fifo[i]].rn
  {
    seq(|fifo|, i requires 0 <= i < |fifo| => advs[fifo[i]].rn)
  }

  lemma {:induction false} WithoutAbsent<T>(s: seq<T>, x: T)
    requires x !in s
    ensures Without(s, x) == s
  {
    if s != [] { WithoutAbsent(s[1..], x); }
  }

  lemma DestsSnoc(advs: map<AdvId, Adv>, advs': map<AdvId, Adv>, fifo: seq<AdvId>, a: AdvId)
    requires (forall x <- fifo :: x in advs && x in advs' && advs'[x] == advs[x]) && a in advs'
    ensures Dests(advs', fifo) == Dests(advs, fifo) && Dests(advs', fifo + [a]) == Dests(advs, fifo) + [advs'[a].rn]
  {
  }

  /** Freeing the advertisement of a destination takes the destination off a FIFO. */
  lemma {:induction false} DestsClean(adjs: map<Node, Adj>, advs: map<AdvId, Adv>, fifo: seq<AdvId>, n: Node, a: AdvId)
    requires Linked(adjs, advs) && n in adjs && adjs[n].adv == Some(a)
    requires Distinct(fifo) && forall x <- fifo :: x in advs
    ensures forall x <- Without(fifo, a) :: x in advs - {a}
    ensures Dests(advs - {a}, Without(fifo, a)) == Without(Dests(advs, fifo), n)
  {
    WithoutMembers(fifo, a);
    if fifo != [] {
      var x, t := fifo[0], fifo[1..];
      assert fifo == [x] + t && x !in t && x in fifo;
      assert Dests(advs, fifo) == [advs[x].rn] + Dests(advs, t);
      if x == a {
        assert Dests(advs - {a}, t) == Dests(advs, t);
      } else {
        DestsClean(adjs, advs, t, n, a);
        assert Without(fifo, a) == [x] + Without(t, a);
        assert Dests(advs - {a}, Without(fifo, a)) == [advs[x].rn] + Dests(advs - {a}, Without(t, a));
      }
    }
  }

  lemma DestsIdle(adjs: map<Node, Adj>, advs: map<AdvId, Adv>, fifo: seq<AdvId>, n: Node)
    requires Linked(adjs, advs) && (n in adjs ==> adjs[n].adv == None) && forall x <- fifo :: x in advs
    ensures Without(Dests(advs, fifo), n) == Dests(advs, fifo)
  {
    assert forall i | 0 <= i < |fifo| :: fifo[i] in fifo;
    WithoutAbsent(Dests(advs, fifo), n);
  }

  /** The two FIFOs as destinations. */
  function Waits(s: Sync): (seq<Node>, seq<Node>)
    requires Queued(s.update, s.withdraw, s.advs)
  {
    (Dests(s.advs, s.update), Dests(s.advs, s.withdraw))
  }

  lemma CleanedWaits(s: Sync, n: Node)
    requires Ok(s)
    ensures Ok(CleanIfPending(s, n))
    ensures Waits(CleanIfPending(s, n)) == (Without(Waits(s).0, n), Without(Waits(s).1, n))
  {
    PendingWhenOk(s, n);
    if Pending(s, n) {
      CleanOk(s, n);
      DestsClean(s.adjs, s.advs, s.update, n, s.adjs[n].adv.value);
      DestsClean(s.adjs, s.advs, s.withdraw, n, s.adjs[n].adv.value);
    } else {
      DestsIdle(s.adjs, s.advs, s.update, n);
      DestsIdle(s.adjs, s.advs, s.withdraw, n);
    }
  }

  /** How one operation moves its destination: to the end of the FIFO it calls for, and off the other. */
  function WaitsAfter(w: (seq<Node>, seq<Node>), e: Option<Entry>, op: Op): (seq<Node>, seq<Node>)
  {
    match op
    case SetOp(n, _) => (Without(w.0, n) + [n], Without(w.1, n))
    case UnsetOp(n) =>
      (Without(w.0, n), Without(w.1, n) + if e.Some? && e.value.sent.Some? then [n] else [])
    case SendOp(n) =>
      if e.Some? && e.value.waiting.Update? && e.value.waiting.attr.Some? then (Without(w.0, n), w.1) else w
    case RemoveOp(n) => (Without(w.0, n), Without(w.1, n))
  }

  lemma AnnounceWaits(s: Sync, n: Node, attr: Option<Attr>)
    requires Ok(s) && n in s.adjs && s.adjs[n].adv.None?
    ensures Ok(Announce(s, n, attr)) && Waits(Announce(s, n, attr)) == (Waits(s).0 + [n], Waits(s).1)
  {
    AnnounceOk(s, n, attr);
    var known := attr.Some? && attr.value in s.hash;
    var b := if known then s.hash[attr.value] else s.unused;
    var a := if known then s.unused else b + 1;
    var baa := if known then Baa(s.baas[b].attr, s.baas[b].refcnt + 1, [a] + s.baas[b].adv)
               else Baa(attr, if attr.Some? then 1 else 0, [a]);
    AnnounceFields(s, n, attr, a, b, baa);
    DestsSnoc(s.advs, s.advs[a := Adv(n, Some(b))], s.update, a);
    DestsSnoc(s.advs, s.advs[a := Adv(n, Some(b))], s.withdraw, a);
  }

  lemma WithdrawWaits(s: Sync, n: Node)
    requires Ok(s) && n in s.adjs && s.adjs[n].adv.None?
    ensures Ok(Withdraw(s, n)) && Waits(Withdraw(s, n)) == (Waits(s).0, Waits(s).1 + [n])
  {
    WithdrawOk(s, n);
    var a := s.unused;
    DestsSnoc(s.advs, s.advs[a := Adv(n, None)], s.update, a);
    DestsSnoc(s.advs, s.advs[a := Adv(n, None)], s.withdraw, a);
  }

  lemma SetWaits(s: Sync, n: Node, attr: Option<Attr>)
    requires Ok(s)
    ensures Ok(Set(s, n, attr)) && Waits(Set(s, n, attr)) == WaitsAfter(Waits(s), At(s, n), SetOp(n, attr))
  {
    var s0 := Adjacency(s, n);
    AdjacencyAt(s, n, n);
    CleanedWaits(s0, n);
    Cleaned(s0, n);
    AnnounceWaits(CleanIfPending(s0, n), n, attr);
  }

  lemma UnsetWaits(s: Sync, n: Node)
    requires Ok(s)
    ensures Ok(Unset(s, n)) && Waits(Unset(s, n)) == WaitsAfter(Waits(s), At(s, n), UnsetOp(n))
  {
    CleanedWaits(s, n);
    UnsetStep(s, n, n);
    assert Without(Waits(s).1, n) + [] == Without(Waits(s).1, n);
    if n in s.adjs {
      Cleaned(s, n);
      WithdrawWaits(CleanIfPending(s, n), n);
    }
  }

  lemma SendWaits(s: Sync, n: Node)
    requires Ok(s)
    ensures Ok(Send(s, n)) && Waits(Send(s, n)) == WaitsAfter(Waits(s), At(s, n), SendOp(n))
  {
    SendStep(s, n, n);
    var w := WaitingAt(s, n);
    if w.Update? && w.attr.Some? {
      var s1 := s.(adjs := s.adjs[n := s.adjs[n].(attr := w.attr)]);
      assert Ok(s1);
      CleanedWaits(s1, n);
      OtherFifo(s, n);
    }
  }

  /** A destination with an update waiting is not among the withdrawals. */
  lemma OtherFifo(s: Sync, n: Node)
    requires Ok(s) && WaitingAt(s, n).Update?
    ensures Without(Waits(s).1, n) == Waits(s).1
  {
    assert forall i | 0 <= i < |s.withdraw| :: s.withdraw[i] in s.withdraw;
    WithoutAbsent(Waits(s).1, n);
  }

  lemma StepWaits(s: Sync, op: Op)
    requires Ok(s)
    ensures Ok(Step(s, op)) && Waits(Step(s, op)) == WaitsAfter(Waits(s), At(s, op.n), op)
  {
    match op
    case SetOp(n, attr) => SetWaits(s, n, attr);
    case UnsetOp(n) => UnsetWaits(s, n);
    case SendOp(n) => SendWaits(s, n);
    case RemoveOp(n) =>
      CleanedWaits(s, n);
      RemoveStep(s, n, n);
  }

  /** The two FIFOs that the operations call for, from their history alone. */
  function WaitOrder(ops: seq<Op>): (seq<Node>, seq<Node>)
  {
    if ops == [] then ([], [])
    else
      var k := |ops| - 1;
      WaitsAfter(WaitOrder(ops[..k]), History(ops[..k], ops[k].n), ops[k])
  }

  /** After any run, both FIFOs hold their destinations in the order of the operations that put them there. */
  lemma {:induction false} RunIsFifo(ops: seq<Op>)
    ensures Waits(After(ops)) == WaitOrder(ops)
  {
    if ops != [] {
      var k := |ops| - 1;
      RunIsFifo(ops[..k]);
      RunFollowsHistory(ops[..k], ops[k].n);
      StepWaits(After(ops[..k]), ops[k]);
    }
  }
}

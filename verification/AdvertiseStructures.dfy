/**
  What the structures of quagga-srx/bgpd/bgp_advertise.c stand for: when they represent a
  value of type `Sync`, and that they still do so after each piece of an operation.
*/
module AdvertiseStructures {
  import opened Lists
  import opened Advertise
  import opened AdvertiseLists

  /** struct bgp_adj_out. */
  datatype AdjOut = AdjOut(attr: Option<Attr>, adv: Link?)

  // ---------- What the structures stand for ----------

  ghost function LinkId(l: Link?): Option<AdvId> { if l == null then None else Some(l.id) }

  ghost function Head(ids: seq<AdvId>): Option<AdvId> { if ids == [] then None else Some(ids[0]) }

  ghost function AttrId(b: AdvertiseAttr?): Option<BaaId> { if b == null then None else Some(b.id) }

  ghost predicate Within(baas: Attrs, advs: Links, repr: set<object>)
  {
    && (forall b | b in baas :: baas[b] in repr && baas[b].chain in repr)
    && (forall a | a in advs :: advs[a] in repr)
  }

  /** The advertise-attributes, each with its count and a list of its own; all structures are in `repr`. */
  ghost predicate BaasStand(baas: Attrs, advs: Links, repr: set<object>, m: map<BaaId, Baa>)
    reads repr
  {
    && Within(baas, advs, repr) && baas.Keys == m.Keys && ChainsDiffer(baas)
    && (forall b | b in baas :: baas[b].id == b)
    && (forall b | b in baas :: baas[b].Is(m[b], advs))
  }

  ghost predicate HashStands(hash: map<Attr, AdvertiseAttr>, baas: Attrs, m: map<Attr, BaaId>)
  {
    && hash.Keys == m.Keys
    && forall x | x in hash :: m[x] == hash[x].id && hash[x].id in baas && baas[hash[x].id] == hash[x]
  }

  ghost predicate AdvsStand(advs: Links, baas: Attrs, m: map<AdvId, Adv>)
  {
    && advs.Keys == m.Keys
    && (forall a | a in advs :: advs[a].id == a && m[a] == Adv(advs[a].rn, AttrId(advs[a].baa)))
    && (forall a | a in advs && advs[a].baa != null :: advs[a].baa.id in baas && baas[advs[a].baa.id] == advs[a].baa)
  }

  ghost predicate AdjsStand(adjs: map<Node, AdjOut>, advs: Links, m: map<Node, Adj>)
  {
    && adjs.Keys == m.Keys
    && (forall n | n in adjs :: m[n] == Adj(adjs[n].attr, LinkId(adjs[n].adv)))
    && (forall n | n in adjs && adjs[n].adv != null :: adjs[n].adv.id in advs && advs[adjs[n].adv.id] == adjs[n].adv)
  }

  ghost predicate FifoStands(fifo: seq<Link>, advs: Links, m: seq<AdvId>)
  {
    Numbered(fifo, advs) && m == Ids(fifo)
  }

  /** All but the lists and counts of the advertise-attributes. */
  datatype Fields = Fields(
    hash: map<Attr, AdvertiseAttr>,
    adjs: map<Node, AdjOut>,
    update: seq<Link>,
    withdraw: seq<Link>,
    baas: Attrs,
    advs: Links)

  ghost predicate Stands(v: Fields, s: Sync)
  {
    && HashStands(v.hash, v.baas, s.hash) && AdvsStand(v.advs, v.baas, s.advs) && AdjsStand(v.adjs, v.advs, s.adjs)
    && FifoStands(v.update, v.advs, s.update) && FifoStands(v.withdraw, v.advs, s.withdraw)
  }

  // ---------- ... once an advertisement has been freed ----------

  ghost predicate Part<K, V>(x: map<K, V>, y: map<K, V>) { forall k | k in x :: k in y && x[k] == y[k] }

  lemma PartLess<K, V>(m: map<K, V>, k: K)
    ensures Part(m - {k}, m)
  {
  }

  lemma AdvsFreed(advs: Links, baas: Attrs, m: map<AdvId, Adv>, a: AdvId,
      left: Attrs)
    requires AdvsStand(advs, baas, m) && Part(left, baas)
    requires forall c | c in m - {a} && m[c].baa.Some? :: m[c].baa.value in left
    ensures AdvsStand(advs - {a}, left, m - {a})
  {
  }

  lemma HashFreed(hash: map<Attr, AdvertiseAttr>, baas: Attrs, m: map<Attr, BaaId>,
      kept: map<Attr, AdvertiseAttr>, left: Attrs, r: map<Attr, BaaId>)
    requires HashStands(hash, baas, m) && Part(kept, hash) && Part(left, baas) && Part(r, m)
    requires kept.Keys == r.Keys && forall x | x in r :: r[x] in left
    ensures HashStands(kept, left, r)
  {
  }

  lemma AdjsFreed(adjs: map<Node, AdjOut>, advs: Links, m: map<Node, Adj>, n: Node, a: AdvId)
    requires AdjsStand(adjs, advs, m) && n in adjs && forall k | k in m && k != n :: m[k].adv != Some(a)
    ensures AdjsStand(adjs[n := AdjOut(adjs[n].attr, null)], advs - {a}, m[n := m[n].(adv := None)])
  {
  }

  lemma FifoFreed(fifo: seq<Link>, advs: Links, m: seq<AdvId>, adv: Link)
    requires FifoStands(fifo, advs, m) && Distinct(m) && adv.id in advs && advs[adv.id] == adv
    ensures FifoStands(Without(fifo, adv), advs - {adv.id}, Without(m, adv.id))
  {
    DistinctIds(fifo);
    IdsWithout(fifo, advs, adv);
    WithoutLinks(fifo, adv);
  }

  /** What cleaning changes, and that nothing refers to what it frees. */
  ghost predicate Freed(s: Sync, n: Node, a: AdvId, c: Sync)
  {
    && n in s.adjs && s.adjs[n].adv == Some(a)
    && c.advs == s.advs - {a} && c.adjs == s.adjs[n := s.adjs[n].(adv := None)]
    && c.update == Without(s.update, a) && c.withdraw == Without(s.withdraw, a) && Part(c.hash, s.hash)
    && Distinct(s.update) && Distinct(s.withdraw)
    && (forall k | k in s.adjs && k != n :: s.adjs[k].adv != Some(a))
    && (forall k | k in c.advs && c.advs[k].baa.Some? :: c.advs[k].baa.value in c.baas)
    && (forall x | x in c.hash :: c.hash[x] in c.baas)
    && (forall b | b in c.baas :: a !in c.baas[b].adv)
  }

  lemma CleanFrees(s: Sync, n: Node)
    requires Ok(s) && Pending(s, n)
    ensures Freed(s, n, s.adjs[n].adv.value, Clean(s, n))
  {
    CleanOk(s, n);
    CleanFields(s, n, Clean(s, n));
    FreedFields(s, n, Clean(s, n));
  }

  lemma FreedFields(s: Sync, n: Node, c: Sync)
    requires Ok(s) && Ok(c) && n in s.adjs && s.adjs[n].adv.Some? && Part(c.hash, s.hash)
    requires var a := s.adjs[n].adv.value;
      c == s.(baas := c.baas, hash := c.hash, advs := s.advs - {a}, adjs := s.adjs[n := s.adjs[n].(adv := None)],
              update := Without(s.update, a), withdraw := Without(s.withdraw, a))
    ensures Freed(s, n, s.adjs[n].adv.value, c)
  {
    OnlyOne(s.adjs, s.advs, n);
    NowhereElse(c.advs, c.baas, s.adjs[n].adv.value);
  }

  lemma CleanFields(s: Sync, n: Node, c: Sync)
    requires Pending(s, n) && c == Clean(s, n)
    ensures var a := s.adjs[n].adv.value;
      c == s.(baas := c.baas, hash := c.hash, advs := s.advs - {a}, adjs := s.adjs[n := s.adjs[n].(adv := None)],
              update := Without(s.update, a), withdraw := Without(s.withdraw, a))
    ensures Part(c.hash, s.hash)
  {
  }

  /** What becomes of the attribute of an advertisement, and the next candidate. */
  ghost predicate Leaves(s: Sync, a: AdvId, c: Sync, next: Option<AdvId>)
  {
    && a in s.advs
    && match s.advs[a].baa
       case None => c.baas == s.baas && c.hash == s.hash && next == None
       case Some(b) =>
         && b in s.baas && next == Head(Unlink(s, b, a).baas[b].adv)
         && c.baas == Unintern(Unlink(s, b, a), b).baas && c.hash == Unintern(Unlink(s, b, a), b).hash
  }

  lemma CleanLeaves(s: Sync, n: Node)
    requires Pending(s, n)
    ensures Leaves(s, s.adjs[n].adv.value, Clean(s, n), Next(s, n))
  {
  }

  lemma OnlyOne(adjs: map<Node, Adj>, advs: map<AdvId, Adv>, n: Node)
    requires Linked(adjs, advs) && n in adjs && adjs[n].adv.Some?
    ensures forall k | k in adjs && k != n :: adjs[k].adv != adjs[n].adv
  {
  }

  lemma NowhereElse(advs: map<AdvId, Adv>, baas: map<BaaId, Baa>, a: AdvId)
    requires Bundled(advs, baas) && a !in advs
    ensures forall b | b in baas :: a !in baas[b].adv
  {
  }

  lemma BundledDisjoint(advs: map<AdvId, Adv>, baas: map<BaaId, Baa>)
    requires Bundled(advs, baas)
    ensures Disjoint(baas)
  {
    forall b, c, a | b in baas && c in baas && a in baas[b].adv && a in baas[c].adv ensures b == c {
      assert advs[a].baa == Some(b) && advs[a].baa == Some(c);
    }
  }

  ghost function Forgotten(v: Fields, n: Node, adv: Link): Fields
    requires n in v.adjs
  {
    v.(update := Without(v.update, adv), withdraw := Without(v.withdraw, adv),
       advs := v.advs - {adv.id}, adjs := v.adjs[n := AdjOut(v.adjs[n].attr, null)])
  }

  lemma StandsFreed(v: Fields, s: Sync, n: Node, adv: Link, w: Fields, c: Sync)
    requires Freed(s, n, adv.id, c) && Stands(v, s) && v.adjs[n].adv == adv
    requires Part(w.baas, v.baas) && w.baas.Keys == c.baas.Keys && Part(w.hash, v.hash) && w.hash.Keys == c.hash.Keys
    requires n in v.adjs && w == Forgotten(v, n, adv).(baas := w.baas, hash := w.hash)
    ensures Stands(w, c)
  {
    AdvsFreed(v.advs, v.baas, s.advs, adv.id, w.baas);
    HashFreed(v.hash, v.baas, s.hash, w.hash, w.baas, c.hash);
    AdjsFreed(v.adjs, v.advs, s.adjs, n, adv.id);
    FifoFreed(v.update, v.advs, s.update, adv);
    FifoFreed(v.withdraw, v.advs, s.withdraw, adv);
  }

  lemma BaasFreed(baas: Attrs, advs: Links, repr: set<object>, m: map<BaaId, Baa>, a: AdvId)
    requires BaasStand(baas, advs, repr, m) && forall b | b in m :: a !in m[b].adv
    ensures BaasStand(baas, advs - {a}, repr, m)
  {
    forall b | b in baas ensures baas[b].Is(m[b], advs - {a}) {
      forall l <- baas[b].chain.list ensures l.id != a { MemberId(baas[b].chain.list, l); }
    }
  }

  /** A waiting update is on the list of its attribute. */
  lemma OnList(v: Fields, repr: set<object>, s: Sync, n: Node, adv: Link, baa: AdvertiseAttr)
    requires Stands(v, s) && BaasStand(v.baas, v.advs, repr, s.baas)
    requires Linked(s.adjs, s.advs) && Bundled(s.advs, s.baas)
    requires n in v.adjs && v.adjs[n].adv == adv && adv.baa == baa
    ensures Disjoint(s.baas) && adv.id in s.advs && s.advs[adv.id].baa == Some(baa.id)
    ensures baa.id in v.baas && v.baas[baa.id] == baa && adv in baa.chain.list
    ensures baa in repr && baa.chain in repr && forall l <- baa.chain.list :: l in repr
  {
    assert adv.id in v.advs && v.advs[adv.id] == adv;
    assert v.baas[baa.id].Is(s.baas[baa.id], v.advs);
    IdsIn(baa.chain.list, v.advs, adv);
    forall l <- baa.chain.list ensures l in repr { assert l == v.advs[l.id]; }
    BundledDisjoint(s.advs, s.baas);
  }

  lemma BaasLess(baas: Attrs, advs: Links, repr: set<object>, m: map<BaaId, Baa>, b: BaaId)
    requires BaasStand(baas, advs, repr, m)
    ensures BaasStand(baas - {b}, advs, repr, m - {b})
  {
  }

  // ---------- ... and once there is a new one ----------

  /** One has changed. */
  lemma BaasPut(baas: Attrs, advs: Links, repr: set<object>, m: map<BaaId, Baa>, baa: AdvertiseAttr, x: Baa)
    requires Within(baas, advs, repr) && baas.Keys == m.Keys && ChainsDiffer(baas)
    requires forall b | b in baas :: baas[b].id == b
    requires baa.id in baas && baas[baa.id] == baa && baa.Is(x, advs)
    requires forall b | b in baas && b != baa.id :: baas[b].Is(m[b], advs)
    ensures BaasStand(baas, advs, repr, m[baa.id := x])
  {
  }

  lemma BaasGrown(baas: Attrs, advs: Links, repr: set<object>, m: map<BaaId, Baa>, baa: AdvertiseAttr, x: Baa)
    requires BaasStand(baas, advs, repr, m) && baa.id !in baas && baa.Is(x, advs)
    requires forall b | b in baas :: baas[b].chain != baa.chain
    ensures BaasStand(baas[baa.id := baa], advs, repr + {baa, baa.chain}, m[baa.id := x])
  {
  }

  ghost function Known<T>(hash: map<Attr, T>, attr: Option<Attr>, x: T): map<Attr, T>
  {
    if attr.Some? then hash[attr.value := x] else hash
  }

  lemma StandsGrown(v: Fields, s: Sync, baa: AdvertiseAttr, w: Fields, t: Sync)
    requires Stands(v, s) && baa.id !in v.baas
    requires w == v.(hash := Known(v.hash, baa.attr, baa), baas := v.baas[baa.id := baa])
    requires t == s.(hash := Known(s.hash, baa.attr, baa.id), baas := t.baas, unused := t.unused)
    ensures Stands(w, t)
  {
  }

  /** The advertise-attribute of an attribute, before it is counted. */
  ghost function Obtained(s: Sync, attr: Option<Attr>): (Sync, BaaId)
  {
    if attr.Some? && attr.value in s.hash then (s, s.hash[attr.value])
    else
      var b := s.unused;
      (s.(hash := Known(s.hash, attr, b), baas := s.baas[b := Baa(attr, 0, [])], unused := b + 1), b)
  }

  ghost function CountUp(s: Sync, b: BaaId): Sync
    requires b in s.baas
  {
    s.(baas := s.baas[b := s.baas[b].(refcnt := s.baas[b].refcnt + 1)])
  }

  lemma InternSteps(s: Sync, attr: Option<Attr>)
    requires attr.Some? && attr.value in s.hash ==> s.hash[attr.value] in s.baas
    ensures var (t, b) := Obtained(s, attr);
      b in t.baas && Intern(s, attr) == (if attr.Some? then CountUp(t, b) else t, b)
  {
    var (t, b) := Obtained(s, attr);
    assert t.baas[b := Baa(attr, 1, [])] == s.baas[b := Baa(attr, 1, [])];
  }

  lemma AdvsGrown(advs: Links, baas: Attrs, m: map<AdvId, Adv>, adv: Link)
    requires AdvsStand(advs, baas, m)
    requires adv.baa != null ==> adv.baa.id in baas && baas[adv.baa.id] == adv.baa
    ensures AdvsStand(advs[adv.id := adv], baas, m[adv.id := Adv(adv.rn, AttrId(adv.baa))])
  {
  }

  lemma AdjsGrown(adjs: map<Node, AdjOut>, advs: Links, m: map<Node, Adj>, n: Node, adv: Link)
    requires AdjsStand(adjs, advs, m) && n in adjs && adv.id !in advs
    ensures AdjsStand(adjs[n := AdjOut(adjs[n].attr, adv)], advs[adv.id := adv], m[n := m[n].(adv := Some(adv.id))])
  {
  }

  lemma FifoGrown(fifo: seq<Link>, advs: Links, m: seq<AdvId>, adv: Link)
    requires FifoStands(fifo, advs, m) && adv.id !in advs
    ensures FifoStands(fifo, advs[adv.id := adv], m) && FifoStands(fifo + [adv], advs[adv.id := adv], m + [adv.id])
  {
    assert Ids(fifo + [adv]) == m + [adv.id];
  }

  ghost function Dropped<V>(m: map<Attr, V>, attr: Option<Attr>): map<Attr, V>
  {
    if attr.Some? then m - {attr.value} else m
  }

  lemma DroppedKeys<V, W>(m: map<Attr, V>, n: map<Attr, W>, attr: Option<Attr>)
    requires m.Keys == n.Keys
    ensures Dropped(m, attr).Keys == Dropped(n, attr).Keys
  {
  }

  function Decremented(n: nat): nat { if n > 0 then n - 1 else 0 }

  lemma UninternCases(s: Sync, b: BaaId, x: Baa)
    requires b in s.baas && x == s.baas[b].(refcnt := Decremented(s.baas[b].refcnt))
    ensures Unintern(s, b) == if x.refcnt > 0 && x.attr.Some? then s.(baas := s.baas[b := x])
                              else s.(hash := Dropped(s.hash, x.attr), baas := s.baas[b := x] - {b})
  {
    assert s.baas[b := x] - {b} == s.baas - {b};
  }

  ghost function Announced(v: Fields, n: Node, adv: Link): Fields
    requires n in v.adjs
  {
    v.(update := v.update + [adv], advs := v.advs[adv.id := adv], adjs := v.adjs[n := AdjOut(v.adjs[n].attr, adv)])
  }

  ghost function Withdrawn(v: Fields, n: Node, adv: Link): Fields
    requires n in v.adjs
  {
    v.(withdraw := v.withdraw + [adv], advs := v.advs[adv.id := adv], adjs := v.adjs[n := AdjOut(v.adjs[n].attr, adv)])
  }

  /** A new advertisement for an advertise-attribute at hand. */
  ghost function Attached(s: Sync, n: Node, b: BaaId): Sync
    requires n in s.adjs && b in s.baas
  {
    var a := s.unused;
    s.(baas := s.baas[b := s.baas[b].(adv := [a] + s.baas[b].adv)], advs := s.advs[a := Adv(n, Some(b))],
       adjs := s.adjs[n := s.adjs[n].(adv := Some(a))], update := s.update + [a], unused := a + 1)
  }

  lemma StandsAnnounced(v: Fields, s: Sync, n: Node, adv: Link, r: Sync)
    requires Stands(v, s) && n in v.adjs && adv.id !in v.advs && adv.rn == n
    requires adv.baa != null && adv.baa.id in v.baas && v.baas[adv.baa.id] == adv.baa
    requires adv.id == s.unused && adv.baa.id in s.baas && r == Attached(s, n, adv.baa.id)
    ensures Stands(Announced(v, n, adv), r)
  {
    AdvsGrown(v.advs, v.baas, s.advs, adv);
    AdjsGrown(v.adjs, v.advs, s.adjs, n, adv);
    FifoGrown(v.update, v.advs, s.update, adv);
    FifoGrown(v.withdraw, v.advs, s.withdraw, adv);
  }

  lemma StandsWithdrawn(v: Fields, s: Sync, n: Node, adv: Link)
    requires Stands(v, s) && n in v.adjs && adv.id !in v.advs && adv.rn == n && adv.baa == null && adv.id == s.unused
    ensures Stands(Withdrawn(v, n, adv), Withdraw(s, n))
  {
    AdvsGrown(v.advs, v.baas, s.advs, adv);
    AdjsGrown(v.adjs, v.advs, s.adjs, n, adv);
    FifoGrown(v.update, v.advs, s.update, adv);
    FifoGrown(v.withdraw, v.advs, s.withdraw, adv);
  }

  /** Lists stay on their advertisements when the numbers grow. */
  lemma BaasKept(baas: Attrs, advs: Links, repr: set<object>, m: map<BaaId, Baa>, adv: Link)
    requires BaasStand(baas, advs, repr, m) && adv.id !in advs
    ensures BaasStand(baas, advs[adv.id := adv], repr + {adv}, m)
  {
  }

  lemma InternDisjoint(s: Sync, attr: Option<Attr>)
    requires Ok(s)
    ensures Disjoint(Intern(s, attr).0.baas) && Intern(s, attr).0.unused !in s.advs && s.unused !in s.baas
  {
    BundledDisjoint(s.advs, s.baas);
  }

  lemma AdjacencyStands(v: Fields, s: Sync, n: Node)
    requires Stands(v, s) && n !in v.adjs
    ensures Stands(v.(adjs := v.adjs[n := AdjOut(None, null)]), Adjacency(s, n))
  {
  }

  lemma DropStands(v: Fields, s: Sync, n: Node)
    requires Stands(v, s)
    ensures Stands(v.(adjs := v.adjs - {n}), Drop(s, n))
  {
  }

  /** The attribute has been sent. */
  ghost function Synchronised(s: Sync, n: Node, attr: Option<Attr>): Sync
    requires n in s.adjs
  {
    s.(adjs := s.adjs[n := s.adjs[n].(attr := attr)])
  }

  lemma SentStands(v: Fields, s: Sync, n: Node, attr: Option<Attr>)
    requires Stands(v, s) && n in v.adjs
    ensures Stands(v.(adjs := v.adjs[n := AdjOut(attr, v.adjs[n].adv)]), Synchronised(s, n, attr))
  {
  }

  lemma SendCleans(s: Sync, n: Node, attr: Option<Attr>)
    requires Ok(s) && WaitingAt(s, n) == Update(attr) && attr.Some?
    ensures Ok(Synchronised(s, n, attr)) && Pending(Synchronised(s, n, attr), n)
    ensures Send(s, n) == Clean(Synchronised(s, n, attr), n)
    ensures Pending(s, n) && Next(s, n) == Next(Synchronised(s, n, attr), n)
  {
  }
}

/**
  The operations of quagga-srx/bgpd/bgp_advertise.c on the structures themselves, proved to do
  what the operations of `Advertise` do to the value that they represent.
*/
module AdvertisePeer {
  import opened Lists
  import opened Advertise
  import opened AdvertiseLists
  import opened AdvertiseStructures

  /**
    The queues of a peer.  `baas` and `advs` list the structures that are allocated and not
    freed, by number; the value `s` of type `Sync` for which `Represents(s)` holds is what all
    the structures together stand for.
  */
  class Peer {
    var hash: map<Attr, AdvertiseAttr>
    var adjs: map<Node, AdjOut>
    var update: seq<Link>
    var withdraw: seq<Link>
    ghost var baas: Attrs
    ghost var advs: Links
    ghost var repr: set<object>

    ghost function Now(): Fields
      reads this
    {
      Fields(hash, adjs, update, withdraw, baas, advs)
    }

    ghost predicate Represents(s: Sync)
      reads this, repr
    {
      && this !in repr
      && BaasStand(baas, advs, repr, s.baas) && Stands(Now(), s)
    }

    constructor ()
      ensures Represents(EMPTY) && fresh(repr)
    {
      hash, adjs, update, withdraw, baas, advs, repr := map[], map[], [], [], map[], map[], {};
    }

    /** `bgp_advertise_delete` on one of the lists; the others are not touched. */
    method Unchain(baa: AdvertiseAttr, adv: Link, ghost m: map<BaaId, Baa>, ghost x: Baa)
      requires this !in repr && BaasStand(baas, advs, repr, m) && Disjoint(m)
      requires baa.id in baas && baas[baa.id] == baa && adv in baa.chain.list
      requires x == m[baa.id].(adv := Without(m[baa.id].adv, adv.id))
      modifies baa.chain, baa.chain.list
      ensures BaasStand(baas, advs, repr, m[baa.id := x]) && Now() == old(Now()) && repr == old(repr)
    {
      ghost var before := baa.chain.list;
      baa.Delete(adv, m[baa.id], advs);
      forall b | b in baas && b != baa.id ensures baas[b].Is(m[b], advs) {
        ListsApart(m, b, old(baas[b].chain.list), baa.id, before);
        StillValid(baas[b].chain);
      }
      BaasPut(baas, advs, repr, m, baa, x);
    }

    method SetCount(baa: AdvertiseAttr, refcnt: nat, ghost m: map<BaaId, Baa>, ghost x: Baa)
      requires this !in repr && BaasStand(baas, advs, repr, m) && baa.id in baas && baas[baa.id] == baa
      requires x == m[baa.id].(refcnt := refcnt)
      modifies baa`refcnt
      ensures BaasStand(baas, advs, repr, m[baa.id := x]) && baa.refcnt == refcnt
    {
      baa.refcnt := refcnt;
      BaasPut(baas, advs, repr, m, baa, x);
    }

    /** The count goes down if it can. */
    method Release(baa: AdvertiseAttr, ghost m: map<BaaId, Baa>, ghost x: Baa)
      requires this !in repr && BaasStand(baas, advs, repr, m) && baa.id in baas && baas[baa.id] == baa
      requires x == m[baa.id].(refcnt := Decremented(m[baa.id].refcnt))
      modifies baa`refcnt
      ensures BaasStand(baas, advs, repr, m[baa.id := x]) && baa.refcnt == x.refcnt && baa.attr == x.attr
      ensures Now() == old(Now()) && repr == old(repr)
    {
      assert baas[baa.id].Is(m[baa.id], advs);
      if baa.refcnt > 0 { SetCount(baa, baa.refcnt - 1, m, x); } else { assert m == m[baa.id := x]; }
    }

    method FreeAttr(baa: AdvertiseAttr, ghost m: map<BaaId, Baa>)
      requires this !in repr && BaasStand(baas, advs, repr, m)
      modifies this`hash, this`baas
      ensures BaasStand(baas, advs, repr, m - {baa.id}) && Part(baas, old(baas))
      ensures hash == Dropped(old(hash), baa.attr)
      ensures Now() == old(Now()).(baas := baas, hash := hash) && repr == old(repr)
    {
      if baa.attr.Some? { hash := hash - {baa.attr.value}; }
      baas := baas - {baa.id};
      assert BaasStand(old(baas), advs, repr, m);
      BaasLess(old(baas), advs, repr, m, baa.id);
      PartLess(old(baas), baa.id);
      assert BaasStand(baas, advs, repr, m - {baa.id});
    }

    /** `bgp_advertise_unintern`. */
    method UninternAttr(baa: AdvertiseAttr, ghost s: Sync, ghost t: Sync)
      requires baa.id in baas && baas[baa.id] == baa
      requires this !in repr && BaasStand(baas, advs, repr, s.baas) && HashStands(hash, baas, s.hash)
      requires t == Unintern(s, baa.id)
      modifies this`hash, this`baas, baa`refcnt
      ensures BaasStand(baas, advs, repr, t.baas) && Part(baas, old(baas))
      ensures Part(hash, old(hash)) && hash.Keys == t.hash.Keys
      ensures Now() == old(Now()).(baas := baas, hash := hash) && repr == old(repr)
    {
      ghost var x := s.baas[baa.id].(refcnt := Decremented(s.baas[baa.id].refcnt));
      UninternCases(s, baa.id, x);
      Release(baa, s.baas, x);
      if !(baa.refcnt > 0 && baa.attr.Some?) {
        FreeAttr(baa, s.baas[baa.id := x]);
        DroppedKeys(old(hash), s.hash, baa.attr);
      }
    }

    /** The attribute's part of `bgp_advertise_clean`. */
    method LeaveAttr(adv: Link, baa: AdvertiseAttr, ghost s: Sync, ghost u: Sync, ghost t: Sync) returns (next: Link?)
      requires this !in repr && BaasStand(baas, advs, repr, s.baas) && HashStands(hash, baas, s.hash)
      requires Disjoint(s.baas) && baa.id in baas && baas[baa.id] == baa && adv in baa.chain.list
      requires u == Unlink(s, baa.id, adv.id) && t == Unintern(u, baa.id)
      modifies this`hash, this`baas, baa, baa.chain, baa.chain.list
      ensures BaasStand(baas, advs, repr, t.baas) && Part(baas, old(baas))
      ensures Part(hash, old(hash)) && hash.Keys == t.hash.Keys
      ensures LinkId(next) == Head(u.baas[baa.id].adv)
      ensures Now() == old(Now()).(baas := baas, hash := hash) && repr == old(repr)
    {
      Unchain(baa, adv, s.baas, u.baas[baa.id]);
      next := baa.chain.head;
      assert LinkId(next) == Head(u.baas[baa.id].adv) by { assert baas[baa.id].Is(u.baas[baa.id], advs); }
      UninternAttr(baa, u, t);
    }

    /** The rest of it: the advertisement leaves its FIFO and is freed. */
    method FreeAdv(n: Node, adv: Link)
      requires n in adjs
      modifies this`update, this`withdraw, this`adjs, this`advs
      ensures update == Without(old(update), adv) && withdraw == Without(old(withdraw), adv)
      ensures advs == old(advs) - {adv.id} && adjs == old(adjs)[n := AdjOut(old(adjs)[n].attr, null)]
    {
      update, withdraw := Without(update, adv), Without(withdraw, adv);
      advs := advs - {adv.id};
      adjs := adjs[n := AdjOut(adjs[n].attr, null)];
    }

    method Forget(n: Node, adv: Link, ghost w: Fields, ghost c: Sync)
      requires n in adjs && w == Forgotten(Now(), n, adv) && Stands(w, c)
      requires this !in repr && BaasStand(baas, w.advs, repr, c.baas)
      modifies this`update, this`withdraw, this`adjs, this`advs
      ensures Represents(c)
    {
      FreeAdv(n, adv);
      assert Now() == w;
    }

    /** The attribute's part, if there is one. */
    method Leave(n: Node, adv: Link, ghost s: Sync, ghost c: Sync, ghost m: Option<AdvId>) returns (next: Link?)
      requires Represents(s) && Linked(s.adjs, s.advs) && Bundled(s.advs, s.baas) && n in adjs && adjs[n].adv == adv
      requires Leaves(s, adv.id, c, m)
      modifies this`hash, this`baas, repr
      ensures BaasStand(baas, advs, repr, c.baas) && Part(baas, old(baas))
      ensures Part(hash, old(hash)) && hash.Keys == c.hash.Keys && LinkId(next) == m
      ensures Now() == old(Now()).(baas := baas, hash := hash) && repr == old(repr)
    {
      next := null;
      var baa := adv.baa;
      if baa != null {
        OnList(Now(), repr, s, n, adv, baa);
        ghost var u := Unlink(s, baa.id, adv.id);
        next := LeaveAttr(adv, baa, s, u, Unintern(u, baa.id));
      }
    }

    method Finish(n: Node, adv: Link, ghost s: Sync, ghost c: Sync, ghost v: Fields)
      requires Freed(s, n, adv.id, c) && Stands(v, s) && n in v.adjs && v.adjs[n].adv == adv
      requires this !in repr && BaasStand(baas, advs, repr, c.baas)
      requires Part(baas, v.baas) && Part(hash, v.hash) && hash.Keys == c.hash.Keys
      requires Now() == v.(baas := baas, hash := hash)
      modifies this`update, this`withdraw, this`adjs, this`advs
      ensures Represents(c)
    {
      ghost var w := Forgotten(Now(), n, adv);
      StandsFreed(v, s, n, adv, w, c);
      BaasFreed(baas, advs, repr, c.baas, adv.id);
      Forget(n, adv, w, c);
    }

    method CleanStructures(n: Node, ghost s: Sync, ghost c: Sync, ghost m: Option<AdvId>) returns (next: Link?)
      requires Represents(s) && Linked(s.adjs, s.advs) && Bundled(s.advs, s.baas)
      requires n in adjs && adjs[n].adv != null && Freed(s, n, adjs[n].adv.id, c) && Leaves(s, adjs[n].adv.id, c, m)
      modifies this, repr
      ensures Represents(c) && LinkId(next) == m && repr == old(repr)
    {
      var adv := adjs[n].adv;
      next := Leave(n, adv, s, c, m);
      Finish(n, adv, s, c, old(Now()));
    }

    /** `bgp_advertise_clean`. */
    method AdvertiseClean(n: Node, ghost s: Sync) returns (next: Link?)
      requires Represents(s) && Ok(s) && n in adjs && adjs[n].adv != null
      modifies this, repr
      ensures Pending(s, n) && Represents(Clean(s, n)) && Ok(Clean(s, n)) && LinkId(next) == Next(s, n)
      ensures repr == old(repr)
    {
      PendingWhenOk(s, n);
      CleanOk(s, n);
      CleanFrees(s, n);
      CleanLeaves(s, n);
      next := CleanStructures(n, s, Clean(s, n), Next(s, n));
    }

    /** `bgp_advertise_add` on one of the lists. */
    method Enchain(baa: AdvertiseAttr, adv: Link, ghost m: map<BaaId, Baa>, ghost x: Baa)
      requires BaasStand(baas, advs, repr, m) && Disjoint(m) && baa.id in baas && baas[baa.id] == baa
      requires adv.id !in advs && adv.prev == null && x == m[baa.id].(adv := [adv.id] + m[baa.id].adv)
      modifies baa.chain, baa.chain.list, adv
      ensures BaasStand(baas, advs[adv.id := adv], repr + {adv}, m[baa.id := x])
    {
      ghost var before := baa.chain.list;
      baa.Add(adv, m[baa.id], advs);
      forall b | b in baas && b != baa.id ensures baas[b].Is(m[b], advs[adv.id := adv]) {
        ListsApart(m, b, old(baas[b].chain.list), baa.id, before);
        StillValid(baas[b].chain);
      }
      BaasPut(baas, advs[adv.id := adv], repr + {adv}, m, baa, x);
    }

    method Enter(baa: AdvertiseAttr)
      modifies this`hash, this`baas, this`repr
      ensures baas == old(baas)[baa.id := baa] && hash == Known(old(hash), baa.attr, baa)
      ensures repr == old(repr) + {baa, baa.chain}
    {
      if baa.attr.Some? { hash := hash[baa.attr.value := baa]; }
      baas := baas[baa.id := baa];
      repr := repr + {baa, baa.chain};
    }

    method EnterNew(baa: AdvertiseAttr, ghost w: Fields, ghost t: Sync)
      requires this !in repr && BaasStand(baas[baa.id := baa], advs, repr + {baa, baa.chain}, t.baas) && Stands(w, t)
      requires w == Now().(hash := Known(hash, baa.attr, baa), baas := baas[baa.id := baa])
      modifies this`hash, this`baas, this`repr
      ensures Represents(t) && baa.id in baas && baas[baa.id] == baa && repr == old(repr) + {baa, baa.chain}
    {
      Enter(baa);
      assert Now() == w;
    }

    /** A new advertise-attribute; `hash_get` enters it if it has an attribute. */
    method NewAttr(attr: Option<Attr>, ghost s: Sync, ghost t: Sync, ghost b: BaaId) returns (baa: AdvertiseAttr)
      requires Represents(s) && b !in s.baas
      requires t == s.(hash := Known(s.hash, attr, b), baas := s.baas[b := Baa(attr, 0, [])], unused := t.unused)
      modifies this`hash, this`baas, this`repr
      ensures Represents(t) && baa.id == b && b in baas && baas[b] == baa
      ensures fresh(baa) && fresh(baa.chain) && repr == old(repr) + {baa, baa.chain}
    {
      baa := new AdvertiseAttr(b, attr);
      ghost var w := Now().(hash := Known(hash, attr, baa), baas := baas[b := baa]);
      StandsGrown(Now(), s, baa, w, t);
      BaasGrown(baas, advs, repr, s.baas, baa, Baa(attr, 0, []));
      EnterNew(baa, w, t);
    }

    method Obtain(attr: Option<Attr>, ghost s: Sync, ghost t: Sync, ghost b: BaaId) returns (baa: AdvertiseAttr)
      requires Represents(s) && s.unused !in s.baas && (t, b) == Obtained(s, attr)
      modifies this`hash, this`baas, this`repr
      ensures Represents(t) && baa.id == b && b in baas && baas[b] == baa
      ensures forall o <- repr :: o in old(repr) || fresh(o)
    {
      if attr.Some? && attr.value in hash {
        baa := hash[attr.value];
      } else {
        baa := NewAttr(attr, s, t, b);
      }
    }

    method Count(baa: AdvertiseAttr, ghost s: Sync, ghost t: Sync)
      requires Represents(s) && baa.id in baas && baas[baa.id] == baa && t == CountUp(s, baa.id)
      modifies baa`refcnt
      ensures Represents(t)
    {
      assert baas[baa.id].Is(s.baas[baa.id], advs);
      SetCount(baa, baa.refcnt + 1, s.baas, t.baas[baa.id]);
    }

    /** `bgp_advertise_intern`, or `baa_new` without an attribute. */
    method InternAttr(attr: Option<Attr>, ghost s: Sync, ghost t: Sync, ghost b: BaaId) returns (baa: AdvertiseAttr)
      requires Represents(s) && s.unused !in s.baas
      requires (attr.Some? && attr.value in s.hash ==> s.hash[attr.value] in s.baas) && (t, b) == Intern(s, attr)
      modifies this`hash, this`baas, this`repr, repr
      ensures Represents(t) && baa.id == b && b in baas && baas[b] == baa
      ensures forall o <- repr :: o in old(repr) || fresh(o)
    {
      InternSteps(s, attr);
      baa := Obtain(attr, s, Obtained(s, attr).0, b);
      if attr.Some? { Count(baa, Obtained(s, attr).0, t); }
    }

    /** The new advertisement goes on the update FIFO, or on the other one if it has no attribute. */
    method Queue(n: Node, adv: Link)
      requires n in adjs
      modifies this`update, this`withdraw, this`adjs, this`advs, this`repr
      ensures Now() == if adv.baa != null then Announced(old(Now()), n, adv) else Withdrawn(old(Now()), n, adv)
      ensures repr == old(repr) + {adv}
    {
      adjs := adjs[n := AdjOut(adjs[n].attr, adv)];
      advs := advs[adv.id := adv];
      repr := repr + {adv};
      if adv.baa != null {
        update := update + [adv];
      } else {
        withdraw := withdraw + [adv];
      }
    }

    method Join(n: Node, adv: Link, ghost w: Fields, ghost r: Sync)
      requires n in adjs && Stands(w, r) && this !in repr && BaasStand(baas, w.advs, repr + {adv}, r.baas)
      requires w == if adv.baa != null then Announced(Now(), n, adv) else Withdrawn(Now(), n, adv)
      modifies this`update, this`withdraw, this`adjs, this`advs, this`repr
      ensures Represents(r) && repr == old(repr) + {adv}
    {
      Queue(n, adv);
      assert Now() == w;
    }

    method AttachLink(n: Node, baa: AdvertiseAttr, adv: Link, ghost m: map<BaaId, Baa>, ghost w: Fields, ghost r: Sync)
      requires this !in repr && BaasStand(baas, advs, repr, m) && Disjoint(m) && baa.id in baas && baas[baa.id] == baa
      requires adv.id !in advs && adv.prev == null && adv.baa == baa
      requires n in adjs && w == Announced(Now(), n, adv) && Stands(w, r)
      requires r.baas == m[baa.id := m[baa.id].(adv := [adv.id] + m[baa.id].adv)]
      modifies this`update, this`withdraw, this`adjs, this`advs, this`repr, baa.chain, baa.chain.list, adv
      ensures Represents(r) && repr == old(repr) + {adv}
    {
      Enchain(baa, adv, m, r.baas[baa.id]);
      Join(n, adv, w, r);
    }

    method AttachNew(n: Node, baa: AdvertiseAttr, adv: Link, ghost s: Sync, ghost r: Sync)
      requires Represents(s) && Disjoint(s.baas) && adv.id == s.unused && adv.id !in s.advs
      requires adv.prev == null && adv.rn == n && adv.baa == baa
      requires n in adjs && baa.id in baas && baas[baa.id] == baa && r == Attached(s, n, baa.id)
      modifies this`update, this`withdraw, this`adjs, this`advs, this`repr, baa.chain, baa.chain.list, adv
      ensures Represents(r) && repr == old(repr) + {adv}
    {
      StandsAnnounced(Now(), s, n, adv, r);
      AttachLink(n, baa, adv, s.baas, Announced(Now(), n, adv), r);
    }

    /** A new advertisement with its attribute. */
    method Attach(n: Node, baa: AdvertiseAttr, ghost s: Sync, ghost r: Sync) returns (adv: Link)
      requires Represents(s) && Disjoint(s.baas) && s.unused !in s.advs
      requires n in adjs && baa.id in baas && baas[baa.id] == baa && r == Attached(s, n, baa.id)
      modifies this`update, this`withdraw, this`adjs, this`advs, this`repr, repr
      ensures Represents(r) && fresh(adv) && repr == old(repr) + {adv}
    {
      assert baas[baa.id].Is(s.baas[baa.id], advs);
      forall l <- baa.chain.list ensures l in repr { assert l == advs[l.id]; }
      adv := new Link(s.unused, n, baa);
      AttachNew(n, baa, adv, s, r);
    }

    method AttachAny(n: Node, baa: AdvertiseAttr, ghost s: Sync, ghost r: Sync)
      requires Represents(s) && Disjoint(s.baas) && s.unused !in s.advs
      requires n in adjs && baa.id in baas && baas[baa.id] == baa && r == Attached(s, n, baa.id)
      modifies this`update, this`withdraw, this`adjs, this`advs, this`repr, repr
      ensures Represents(r) && forall o <- repr :: o in old(repr) || fresh(o)
    {
      var adv := Attach(n, baa, s, r);
    }

    /** The new advertisement of `bgp_adj_out_set`. */
    method Enqueue(n: Node, attr: Option<Attr>, ghost s: Sync, ghost t: Sync, ghost b: BaaId)
      requires Represents(s) && n in adjs && s.unused !in s.baas && t.unused !in s.advs && Disjoint(t.baas)
      requires (attr.Some? && attr.value in s.hash ==> s.hash[attr.value] in s.baas) && (t, b) == Intern(s, attr)
      modifies this, repr
      ensures Represents(Announce(s, n, attr))
      ensures forall o <- repr :: o in old(repr) || fresh(o)
    {
      var baa := InternAttr(attr, s, t, b);
      AttachAny(n, baa, t, Announce(s, n, attr));
    }

    /** The new advertisement of `bgp_adj_out_unset`. */
    method EnqueueWithdrawal(n: Node, ghost s: Sync) returns (adv: Link)
      requires Represents(s) && n in adjs && s.unused !in s.advs
      modifies this`update, this`withdraw, this`adjs, this`advs, this`repr
      ensures Represents(Withdraw(s, n)) && forall o <- repr :: o in old(repr) || fresh(o)
    {
      adv := new Link(s.unused, n, null);
      StandsWithdrawn(Now(), s, n, adv);
      BaasKept(baas, advs, repr, s.baas, adv);
      Join(n, adv, Withdrawn(Now(), n, adv), Withdraw(s, n));
    }

    method EnsureClean(n: Node, ghost s: Sync)
      requires Represents(s) && Ok(s) && n in adjs
      modifies this, repr
      ensures Represents(CleanIfPending(s, n)) && Ok(CleanIfPending(s, n)) && repr == old(repr)
    {
      PendingWhenOk(s, n);
      if adjs[n].adv != null { var _ := AdvertiseClean(n, s); }
    }

    method PutAdjs(a: map<Node, AdjOut>, ghost r: Sync)
      requires this !in repr && BaasStand(baas, advs, repr, r.baas) && Stands(Now().(adjs := a), r)
      modifies this`adjs
      ensures Represents(r) && adjs == a
    {
      ghost var w := Now().(adjs := a);
      adjs := a;
      assert Now() == w;
    }

    method EnsureAdjacency(n: Node, ghost s: Sync)
      requires Represents(s)
      modifies this`adjs
      ensures Represents(Adjacency(s, n)) && n in adjs
    {
      if n !in adjs {
        AdjacencyStands(Now(), s, n);
        PutAdjs(adjs[n := AdjOut(None, null)], Adjacency(s, n));
      }
    }

    method DropAdjacency(n: Node, ghost s: Sync)
      requires Represents(s)
      modifies this`adjs
      ensures Represents(Drop(s, n))
    {
      DropStands(Now(), s, n);
      PutAdjs(adjs - {n}, Drop(s, n));
    }

    /** `bgp_adj_out_set`: the update waits, whatever waited before. */
    method AdjOutSet(n: Node, attr: Option<Attr>, ghost s: Sync)
      requires Represents(s) && Ok(s)
      modifies this, repr
      ensures Represents(Set(s, n, attr)) && Ok(Set(s, n, attr))
      ensures forall o <- repr :: o in old(repr) || fresh(o)
    {
      SetStep(s, n, attr, n);
      AdjacencyAt(s, n, n);
      EnsureAdjacency(n, s);
      EnsureClean(n, Adjacency(s, n));
      ghost var s1 := CleanIfPending(Adjacency(s, n), n);
      Cleaned(Adjacency(s, n), n);
      InternDisjoint(s1, attr);
      Enqueue(n, attr, s1, Intern(s1, attr).0, Intern(s1, attr).1);
    }

    /** `bgp_adj_out_unset`: a withdrawal waits if an attribute had been sent, and otherwise the adjacency is gone. */
    method AdjOutUnset(n: Node, ghost s: Sync)
      requires Represents(s) && Ok(s)
      modifies this, repr
      ensures Represents(Unset(s, n)) && Ok(Unset(s, n))
      ensures forall o <- repr :: o in old(repr) || fresh(o)
    {
      UnsetStep(s, n, n);
      if n !in adjs { return; }
      EnsureClean(n, s);
      Cleaned(s, n);
      if adjs[n].attr.Some? {
        var _ := EnqueueWithdrawal(n, CleanIfPending(s, n));
      } else {
        DropAdjacency(n, CleanIfPending(s, n));
      }
    }

    /** `bgp_adj_out_remove`. */
    method AdjOutRemove(n: Node, ghost s: Sync)
      requires Represents(s) && Ok(s) && n in adjs
      modifies this, repr
      ensures Represents(Remove(s, n)) && Ok(Remove(s, n)) && repr == old(repr)
    {
      RemoveStep(s, n, n);
      EnsureClean(n, s);
      DropAdjacency(n, CleanIfPending(s, n));
    }

    method Synchronise(n: Node, attr: Option<Attr>, ghost s: Sync)
      requires Represents(s) && n in adjs
      modifies this`adjs
      ensures Represents(Synchronised(s, n, attr)) && adjs == old(adjs)[n := AdjOut(attr, old(adjs)[n].adv)]
    {
      SentStands(Now(), s, n, attr);
      PutAdjs(adjs[n := AdjOut(attr, adjs[n].adv)], Synchronised(s, n, attr));
    }

    method SynchroniseClean(n: Node, attr: Option<Attr>, ghost s: Sync, ghost t: Sync) returns (next: Link?)
      requires Represents(s) && n in adjs && adjs[n].adv != null && t == Synchronised(s, n, attr) && Ok(t)
      modifies this, repr
      ensures Pending(t, n) && Represents(Clean(t, n)) && Ok(Clean(t, n)) && LinkId(next) == Next(t, n)
      ensures repr == old(repr)
    {
      Synchronise(n, attr, s);
      next := AdvertiseClean(n, t);
    }

    /** What `bgp_update_packet` does once an update is in the packet; it goes on with the advertisement returned. */
    method UpdateSent(n: Node, ghost s: Sync) returns (next: Link?)
      requires Represents(s) && Ok(s) && WaitingAt(s, n).Update? && WaitingAt(s, n).attr.Some?
      modifies this, repr
      ensures Represents(Send(s, n)) && Ok(Send(s, n)) && LinkId(next) == Next(s, n) && repr == old(repr)
    {
      var baa := adjs[n].adv.baa;
      assert baas[baa.id].Is(s.baas[baa.id], advs);
      SendCleans(s, n, baa.attr);
      next := SynchroniseClean(n, baa.attr, s, Synchronised(s, n, baa.attr));
    }

    /** `bgp_adj_out_lookup`: the destination is announced, or about to be. */
    method AdjOutLookup(n: Node, ghost s: Sync) returns (r: bool)
      requires Represents(s) && Ok(s)
      ensures r <==> At(s, n).Some? && (At(s, n).value.waiting.Update?
                       || (At(s, n).value.waiting.Idle? && At(s, n).value.sent.Some?))
    {
      PendingWhenOk(s, n);
      if n !in adjs { return false; }
      var adj := adjs[n];
      if adj.adv != null { return adj.adv.baa != null; }
      return adj.attr.Some?;
    }
  }
}

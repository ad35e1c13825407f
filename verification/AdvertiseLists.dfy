/**
  The lists of quagga-srx/bgpd/bgp_advertise.c: advertisements, doubly linked, behind the
  advertise-attribute that they share.
*/
module AdvertiseLists {
  import opened Lists
  import opened Advertise

  type Links = map<AdvId, Link>              // advertisements by number
  type Attrs = map<BaaId, AdvertiseAttr>     // advertise-attributes by number

  /** struct bgp_advertise: its links in the list of its attribute, and what it is about. */
  class Link {
    var next: Link?
    var prev: Link?
    const rn: Node
    const baa: AdvertiseAttr?
    ghost const id: AdvId

    constructor (ghost id: AdvId, rn: Node, baa: AdvertiseAttr?)
      ensures next == null && prev == null && this.id == id && this.rn == rn && this.baa == baa
    {
      next, prev, this.rn, this.baa, this.id := null, null, rn, baa, id;
    }
  }

  /** struct bgp_advertise_attr: the attribute, the count, and the list of advertisements that have it. */
  class AdvertiseAttr {
    const attr: Option<Attr>
    var refcnt: nat
    const chain: Chain
    ghost const id: BaaId

    /** What it stands for, when `advs` lists the advertisements by number. */
    ghost predicate Is(m: Baa, advs: Links)
      reads this, chain, advs.Values
    {
      && m == Baa(attr, refcnt, Ids(chain.list))
      && Numbered(chain.list, advs) && chain.Valid()
    }

    constructor (ghost id: BaaId, attr: Option<Attr>)
      ensures this.id == id && this.attr == attr && refcnt == 0 && fresh(chain) && chain.Valid() && chain.list == []
    {
      this.id, this.attr, refcnt := id, attr, 0;
      chain := new Chain();
    }

    /** `bgp_advertise_add`. */
    method Add(adv: Link, ghost m: Baa, ghost advs: Links)
      requires Is(m, advs) && adv.prev == null && adv.id !in advs
      modifies chain, chain.list, adv
      ensures Is(m.(adv := [adv.id] + m.adv), advs[adv.id := adv])
    {
      chain.AddFresh(adv);
      assert Ids(chain.list) == [adv.id] + m.adv;
    }

    /** `bgp_advertise_delete`. */
    method Delete(adv: Link, ghost m: Baa, ghost advs: Links)
      requires Is(m, advs) && adv in chain.list
      modifies chain, chain.list
      ensures Is(m.(adv := Without(m.adv, adv.id)), advs)
      ensures chain.list == Without(old(chain.list), adv)
    {
      ghost var before := chain.list;
      IdsWithout(before, advs, adv);
      WithoutLinks(before, adv);
      chain.Delete(adv);
    }
  }

  ghost function ElementAt(list: seq<Link>, i: int): Link? { if 0 <= i < |list| then list[i] else null }

  /** Where the elements of a list are once the one at `k` has been taken out. */
  lemma Shifted(s: seq<Link>, k: nat, i: int)
    requires k < |s|
    ensures ElementAt(s[..k] + s[k + 1..], i) == ElementAt(s, if i < k then i else i + 1)
  {
  }

  /** The head of a list: `baa->adv`, or `rn->adj_out` of the BGP_INFO macros. */
  class Chain {
    var head: Link?
    ghost var list: seq<Link>

    /** Following `next` from the head, or `prev` from the end, visits the elements of `list`. */
    ghost predicate Valid()
      reads this, list
    {
      && Distinct(list) && head == ElementAt(list, 0)
      && (forall i {:trigger list[i].next} | 0 <= i < |list| :: list[i].next == ElementAt(list, i + 1))
      && (forall i {:trigger list[i].prev} | 0 <= i < |list| :: list[i].prev == ElementAt(list, i - 1))
    }

    constructor ()
      ensures Valid() && list == []
    {
      head, list := null, [];
    }

    /** BGP_INFO_ADD. */
    method Add(a: Link)
      requires Valid() && a !in list
      modifies this, list, a
      ensures Valid() && list == [a] + old(list)
    {
      a.prev := null;
      AddFresh(a);
    }

    /** `bgp_advertise_add`, for an element whose links are still clear. */
    method AddFresh(a: Link)
      requires Valid() && a !in list && a.prev == null
      modifies this, list, a
      ensures Valid() && list == [a] + old(list)
    {
      a.next := head;
      if head != null {
        head.prev := a;
      }
      head := a;
      list := [a] + list;
    }

    /** The pointer updates of a deletion: only the neighbours of element `k` change. */
    method Bypass(a: Link, ghost k: nat)
      requires Valid() && k < |list| && list[k] == a
      modifies this`head, list
      ensures head == ElementAt(list, if k == 0 then 1 else 0)
      ensures forall j {:trigger list[j].next} | 0 <= j < |list| ::
        list[j].next == ElementAt(list, if j == k - 1 then k + 1 else j + 1)
      ensures forall j {:trigger list[j].prev} | 0 <= j < |list| ::
        list[j].prev == ElementAt(list, if j == k + 1 then k - 1 else j - 1)
    {
      assert list[k].next == ElementAt(list, k + 1) && list[k].prev == ElementAt(list, k - 1);
      assert forall j | 0 <= j < |list| && j != k + 1 :: list[j] != ElementAt(list, k + 1);
      assert forall j | 0 <= j < |list| && j != k - 1 :: list[j] != ElementAt(list, k - 1);
      if a.next != null {
        a.next.prev := a.prev;
      }
      if a.prev != null {
        a.prev.next := a.next;
      } else {
        head := a.next;
      }
    }

    /** `bgp_advertise_delete` and BGP_INFO_DEL; the element keeps its own links. */
    method Delete(a: Link)
      requires Valid() && a in list
      modifies this, list
      ensures Valid() && list == Without(old(list), a)
      ensures a.next == old(a.next) && a.prev == old(a.prev)
    {
      ghost var k :| 0 <= k < |list| && list[k] == a;
      ghost var before := list;
      assert list[k].next == ElementAt(list, k + 1) && list[k].prev == ElementAt(list, k - 1);
      Bypass(a, k);
      assert list[k].next == ElementAt(list, k + 1) && list[k].prev == ElementAt(list, k - 1);
      list := list[..k] + list[k + 1..];
      Spliced(before, k);
    }

    /** The links that a deletion leaves are those of the shorter list. */
    lemma Spliced(before: seq<Link>, k: nat)
      requires Distinct(before) && k < |before| && list == before[..k] + before[k + 1..]
      requires head == ElementAt(before, if k == 0 then 1 else 0)
      requires forall j {:trigger before[j].next} | 0 <= j < |before| ::
        before[j].next == ElementAt(before, if j == k - 1 then k + 1 else j + 1)
      requires forall j {:trigger before[j].prev} | 0 <= j < |before| ::
        before[j].prev == ElementAt(before, if j == k + 1 then k - 1 else j - 1)
      ensures Valid() && list == Without(before, before[k])
    {
      WithoutAt(before, k);
      WithoutMembers(before, before[k]);
      Shifted(before, k, 0);
      forall i | 0 <= i < |list|
        ensures list[i].next == ElementAt(list, i + 1) && list[i].prev == ElementAt(list, i - 1)
      {
        SplicedAt(before, k, i);
      }
    }

    lemma SplicedAt(before: seq<Link>, k: nat, i: nat)
      requires k < |before| && list == before[..k] + before[k + 1..] && i < |list|
      requires forall j {:trigger before[j].next} | 0 <= j < |before| ::
        before[j].next == ElementAt(before, if j == k - 1 then k + 1 else j + 1)
      requires forall j {:trigger before[j].prev} | 0 <= j < |before| ::
        before[j].prev == ElementAt(before, if j == k + 1 then k - 1 else j - 1)
      ensures list[i].next == ElementAt(list, i + 1) && list[i].prev == ElementAt(list, i - 1)
    {
      var j := if i < k then i else i + 1;
      assert list[i] == before[j];
      Shifted(before, k, i + 1);
      Shifted(before, k, i - 1);
      assert before[j].next == ElementAt(before, if j == k - 1 then k + 1 else j + 1);
      assert before[j].prev == ElementAt(before, if j == k + 1 then k - 1 else j - 1);
    }
  }

  /** A list is not affected by changes elsewhere. */
  twostate lemma StillValid(c: Chain)
    requires old(c.Valid()) && c.head == old(c.head) && c.list == old(c.list)
    requires forall l <- c.list :: l.next == old(l.next) && l.prev == old(l.prev)
    ensures c.Valid()
  {
    forall i | 0 <= i < |c.list| ensures c.list[i].next == ElementAt(c.list, i + 1) {
      assert c.list[i] in c.list;
      assert old(c.list[i].next) == ElementAt(c.list, i + 1);
    }
    forall i | 0 <= i < |c.list| ensures c.list[i].prev == ElementAt(c.list, i - 1) {
      assert c.list[i] in c.list;
      assert old(c.list[i].prev) == ElementAt(c.list, i - 1);
    }
  }

  // ---------- Advertisements by number ----------

  ghost function Ids(list: seq<Link>): (ids: seq<AdvId>)
    ensures |ids| == |list| && forall i | 0 <= i < |list| :: ids[i] == list[i].id
  {
    seq(|list|, i requires 0 <= i < |list| => list[i].id)
  }

  /** Different elements have different numbers. */
  ghost predicate Numbered(list: seq<Link>, advs: Links)
  {
    forall l <- list :: l.id in advs && advs[l.id] == l
  }

  lemma {:induction false} IdsWithout(list: seq<Link>, advs: Links, l: Link)
    requires Numbered(list, advs) && l.id in advs && advs[l.id] == l
    ensures Ids(Without(list, l)) == Without(Ids(list), l.id)
  {
    if list != [] {
      assert list[0] in list;
      var t := list[1..];
      IdsWithout(t, advs, l);
      assert Ids(list) == [list[0].id] + Ids(t) && Ids(list)[1..] == Ids(t);
      assert Without(list, l) == if list[0] == l then t else [list[0]] + Without(t, l);
    }
  }

  lemma MemberId(list: seq<Link>, l: Link)
    requires l in list
    ensures l.id in Ids(list)
  {
    var i :| 0 <= i < |list| && list[i] == l;
    assert Ids(list)[i] == l.id;
  }

  lemma IdsIn(list: seq<Link>, advs: Links, l: Link)
    requires Numbered(list, advs) && l.id in advs && advs[l.id] == l
    ensures l.id in Ids(list) <==> l in list
  {
    if l in list { var i :| 0 <= i < |list| && list[i] == l; assert Ids(list)[i] == l.id; }
    if l.id in Ids(list) { var i :| 0 <= i < |list| && Ids(list)[i] == l.id; assert list[i] in list; }
  }

  lemma WithoutLinks(list: seq<Link>, l: Link)
    requires Distinct(list)
    ensures Distinct(Without(list, l)) && l !in Without(list, l)
    ensures forall m <- Without(list, l) :: m in list
    ensures forall m <- list | m != l :: m in Without(list, l)
  {
    WithoutMembers(list, l);
  }

  lemma {:induction false} DistinctIds(list: seq<Link>)
    requires Distinct(Ids(list))
    ensures Distinct(list)
  {
    forall i, j | 0 <= i < j < |list| ensures list[i] != list[j] {
      assert Ids(list)[i] != Ids(list)[j];
    }
  }

  ghost predicate ChainsDiffer(baas: Attrs)
  {
    forall b, c | b in baas && c in baas && b != c :: baas[b].chain != baas[c].chain
  }

  /** No advertisement is on two lists. */
  ghost predicate Disjoint(m: map<BaaId, Baa>)
  {
    forall b, c, a | b in m && c in m && a in m[b].adv && a in m[c].adv :: b == c
  }

  lemma ListsApart(m: map<BaaId, Baa>, b: BaaId, x: seq<Link>, c: BaaId, y: seq<Link>)
    requires Disjoint(m) && b in m && c in m && b != c && m[b].adv == Ids(x) && m[c].adv == Ids(y)
    ensures forall l <- x :: l !in y
  {
    forall l <- x ensures l !in y {
      MemberId(x, l);
      if l in y { MemberId(y, l); }
    }
  }
}

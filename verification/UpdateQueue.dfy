/**
  The queue of updates waiting on an interface (compare_buffered_updates and
  flushupdates in quagga-srx/babeld/message.c).
*/
module UpdateQueue {
  import opened Octets
  import opened Distance
  import opened Sources
  import opened Sorting
  import opened UpdateDecoder

  datatype Entry = Entry(id: RouterId, dest: Destination)

  predicate IsV4(e: Entry) { e.dest.plen >= 96 && V4Mapped(e.dest.prefix) }

  /** A host route whose low half is the router-id: the codec can then drop the router-id. */
  predicate IdInPrefix(e: Entry) { !IsV4(e) && e.dest.plen == 128 && e.dest.prefix[8..] == e.id }

  /** `compare_buffered_updates`. */
  function Compare(a: Entry, b: Entry): (c: int)
    ensures c == 0 <==> a == b
  {
    var rc := Memcmp(a.id, b.id);
    if rc != 0 then rc
    else if IsV4(a) && !IsV4(b) then 1
    else if !IsV4(a) && IsV4(b) then -1
    else if IdInPrefix(a) && !IdInPrefix(b) then -1
    else if IdInPrefix(b) && !IdInPrefix(a) then 1
    else if a.dest.plen < b.dest.plen then 1
    else if a.dest.plen > b.dest.plen then -1
    else Memcmp(a.dest.prefix, b.dest.prefix)
  }

  function Le(): (Entry, Entry) -> bool { (a, b) => Compare(a, b) <= 0 }

  lemma CompareAntisymmetric(a: Entry, b: Entry)
    ensures Compare(a, b) < 0 <==> Compare(b, a) > 0
  {
    MemcmpAntisymmetric(a.id, b.id);
    MemcmpAntisymmetric(a.dest.prefix, b.dest.prefix);
  }

  lemma CompareTransitive(a: Entry, b: Entry, c: Entry)
    requires Compare(a, b) <= 0 && Compare(b, c) <= 0
    ensures Compare(a, c) <= 0
  {
    MemcmpTransitive(a.id, b.id, c.id);
    if a.id == b.id == c.id && Memcmp(a.dest.prefix, b.dest.prefix) <= 0 && Memcmp(b.dest.prefix, c.dest.prefix) <= 0 {
      MemcmpTransitive(a.dest.prefix, b.dest.prefix, c.dest.prefix);
    }
  }

  /** The comparison is a total order in which only identical entries tie. */
  lemma CompareIsTotalOrder()
    ensures TotalOrder(Le())
  {
    forall a, b ensures Le()(a, b) || Le()(b, a) { CompareAntisymmetric(a, b); }
    forall a, b | Le()(a, b) && Le()(b, a) ensures a == b { CompareAntisymmetric(a, b); CompareAntisymmetric(b, a); }
    forall a, b, c | Le()(a, b) && Le()(b, c) ensures Le()(a, c) { CompareTransitive(a, b, c); }
  }

  /** An IPv4 destination, as a v4-mapped prefix. */
  ghost predicate MappedV4(d: Destination)
  {
    d.plen >= 96 && d.prefix[..10] == [0, 0, 0, 0, 0, 0, 0, 0, 0, 0] && d.prefix[10] == d.prefix[11] == 0xFF
  }

  /** A host whose address ends in the router-id, which then need not be sent. */
  ghost predicate HostOf(d: Destination, id: RouterId)
  {
    d.plen == 128 && !MappedV4(d) && forall k | 0 <= k < 8 :: d.prefix[8 + k] == id[k]
  }

  /**
    The order of a sorted queue: by router-id, so that updates with one router-id go out together, and
    with one router-id IPv6 before IPv4, first the router's own addresses, longer prefixes before
    shorter ones, equally long ones by their octets.
  */
  lemma SortedQueue(a: Entry, b: Entry)
    requires Le()(a, b)
    ensures Memcmp(a.id, b.id) <= 0
    ensures a.id == b.id ==>
      var v4, host := MappedV4(a.dest) == MappedV4(b.dest), HostOf(a.dest, a.id) == HostOf(b.dest, b.id);
      && (MappedV4(a.dest) ==> MappedV4(b.dest))
      && (v4 && HostOf(b.dest, b.id) ==> HostOf(a.dest, a.id))
      && (v4 && host ==> a.dest.plen >= b.dest.plen)
      && (v4 && host && a.dest.plen == b.dest.plen ==> Memcmp(a.dest.prefix, b.dest.prefix) <= 0)
  {
    MappedIsV4(a);
    MappedIsV4(b);
    HostIsIdInPrefix(a);
    HostIsIdInPrefix(b);
  }

  lemma MappedIsV4(e: Entry)
    ensures IsV4(e) <==> MappedV4(e.dest)
  {
    var p := e.dest.prefix;
    assert p[..12] == p[..10] + [p[10], p[11]];
  }

  lemma HostIsIdInPrefix(e: Entry)
    ensures IdInPrefix(e) <==> HostOf(e.dest, e.id)
  {
    MappedIsV4(e);
    assert forall k | 0 <= k < 8 :: e.dest.prefix[8..][k] == e.dest.prefix[8 + k];
  }

  // ---------- flushupdates ----------

  /** An installed route, with the metric that is announced on the interface. */
  datatype Installed = Installed(id: RouterId, seqno: U16, metric: U16)

  /** What the flush consults: installed routes and exported routes by destination, and split horizon. */
  datatype World = World(
    myid: RouterId,
    myseqno: U16,
    installed: map<Destination, Installed>,
    blocked: set<Destination>,               // its next hop is on this very interface, with split horizon on
    exported: map<Destination, U16>,         // metric of the exported route
    kernelMetric: nat)
  {
    /** The exported route is announced rather than the installed one. */
    predicate Exports(d: Destination) { d in exported && (d !in installed || exported[d] <= kernelMetric) }

    /** One update goes out and the destination is remembered. */
    predicate Announces(d: Destination) { Exports(d) || (d in installed && d !in blocked) }

    /** Nothing is known about the destination: a retraction goes out. */
    predicate Retracts(d: Destination) { !Exports(d) && d !in installed }

    function Labelled(d: Destination): Entry { Entry(if d in installed then installed[d].id else myid, d) }

    /** The update that a destination with a route calls for. */
    function Update(d: Destination): Sent
      requires Announces(d)
    {
      if Exports(d) then Announced(myid, d, myseqno, exported[d])
      else Announced(installed[d].id, d, installed[d].seqno, installed[d].metric)
    }

    function Retraction(d: Destination): Sent { Retracted(myid, d, myseqno, INFINITY) }
  }

  /** A call of `really_send_update`; a retraction carries no channels. */
  datatype Sent =
    | Announced(id: RouterId, dest: Destination, seqno: U16, metric: U16)
    | Retracted(id: RouterId, dest: Destination, seqno: U16, metric: U16)

  datatype Flushed = Flushed(sent: seq<Sent>, last: seq<Destination>)

  /** One round of the sending loop. */
  function Round(w: World, f: Flushed, d: Destination): Flushed
  {
    if f.last == [d] then f
    else if w.Announces(d) then Flushed(f.sent + [w.Update(d)], [d])
    else if w.Retracts(d) then f.(sent := f.sent + [w.Retraction(d)])
    else f
  }

  function Rounds(w: World, b: seq<Entry>): Flushed
  {
    if b == [] then Flushed([], []) else Round(w, Rounds(w, b[..|b| - 1]), b[|b| - 1].dest)
  }

  function Labels(w: World, q: seq<Destination>): (b: seq<Entry>)
    ensures |b| == |q| && forall i | 0 <= i < |q| :: b[i] == w.Labelled(q[i])
  {
    seq(|q|, i requires 0 <= i < |q| => w.Labelled(q[i]))
  }

  lemma RoundsStep(w: World, b: seq<Entry>, i: nat)
    requires i < |b|
    ensures Rounds(w, b[..i + 1]) == Round(w, Rounds(w, b[..i]), b[i].dest)
  {
    assert b[..i + 1][..i] == b[..i];
  }

  /** `flushupdates`: label, sort, send. */
  method FlushUpdates(w: World, q: seq<Destination>) returns (sent: seq<Sent>)
    ensures sent == Rounds(w, Sort(Le(), Labels(w, q))).sent
  {
    var b := Sort(Le(), Labels(w, q));
    var last: seq<Destination> := [];
    sent := [];
    var i := 0;
    assert b[..0] == [];
    while i < |b|
      invariant 0 <= i <= |b|
      invariant Rounds(w, b[..i]) == Flushed(sent, last)
    {
      var d := b[i].dest;
      RoundsStep(w, b, i);
      if last != [d] {
        if w.Exports(d) {
          sent, last := sent + [Announced(w.myid, d, w.myseqno, w.exported[d])], [d];
        } else if d in w.installed {
          var route := w.installed[d];
          if d !in w.blocked {
            sent, last := sent + [Announced(route.id, d, route.seqno, route.metric)], [d];
          }
        } else {
          sent := sent + [Retracted(w.myid, d, w.myseqno, INFINITY)];
        }
      }
      i := i + 1;
    }
    assert b[..|b|] == b;
  }

  function CountSent(s: Sent, sent: seq<Sent>): nat { multiset(sent)[s] }

  ghost predicate Labelling(w: World, b: seq<Entry>) { forall e <- b :: e == w.Labelled(e.dest) }

  /** In a sorted labelled queue the copies of a destination stand side by side. */
  lemma CopiesAdjacent(w: World, b: seq<Entry>, j: nat, n: nat)
    requires Labelling(w, b) && SortedBy(Le(), b) && j < n < |b| && b[j].dest == b[n].dest
    ensures b[n - 1].dest == b[n].dest
  {
    if j < n - 1 {
      assert b[j] == b[n];
      assert Le()(b[j], b[n - 1]) && Le()(b[n - 1], b[n]);
      CompareAntisymmetric(b[n - 1], b[n]);
      CompareAntisymmetric(b[n], b[n - 1]);
    }
  }

  /** Whether `d` is queued in `b`. */
  ghost predicate Queued(d: Destination, b: seq<Entry>) { exists i :: 0 <= i < |b| && b[i].dest == d }

  lemma QueuedSnoc(d: Destination, b: seq<Entry>, n: nat)
    requires |b| == n + 1
    ensures Queued(d, b) <==> Queued(d, b[..n]) || b[n].dest == d
  {
    if i :| 0 <= i < |b| && b[i].dest == d && i < n { assert b[..n][i].dest == d; }
    if i :| 0 <= i < n && b[..n][i].dest == d { assert b[i].dest == d; }
  }

  /** The memory of the loop: the last destination announced, which is the last one seen if that was announced. */
  lemma {:induction false} RoundsLast(w: World, b: seq<Entry>)
    ensures var f := Rounds(w, b);
      && (f.last != [] ==> |f.last| == 1 && w.Announces(f.last[0]) && Queued(f.last[0], b))
      && (b != [] && w.Announces(b[|b| - 1].dest) ==> f.last == [b[|b| - 1].dest])
  {
    if b != [] {
      var n := |b| - 1;
      RoundsLast(w, b[..n]);
      QueuedSnoc(b[n].dest, b, n);
      var f := Rounds(w, b[..n]);
      if f.last != [] { QueuedSnoc(f.last[0], b, n); }
    }
  }

  /** A destination met for the second time was announced the first time, if at all. */
  lemma SecondTime(w: World, b: seq<Entry>, n: nat)
    requires Labelling(w, b) && SortedBy(Le(), b) && |b| == n + 1 && w.Announces(b[n].dest)
    ensures Queued(b[n].dest, b[..n]) <==> Rounds(w, b[..n]).last == [b[n].dest]
  {
    RoundsLast(w, b[..n]);
    if Queued(b[n].dest, b[..n]) { QueuedBefore(w, b, n); }
  }

  lemma QueuedBefore(w: World, b: seq<Entry>, n: nat)
    requires Labelling(w, b) && SortedBy(Le(), b) && |b| == n + 1 && Queued(b[n].dest, b[..n])
    ensures n > 0 && b[..n][n - 1].dest == b[n].dest
  {
    var j :| 0 <= j < n && b[..n][j].dest == b[n].dest;
    CopiesAdjacent(w, b, j, n);
  }

  /** What one round adds. */
  lemma RoundCount(w: World, f: Flushed, x: Destination, d: Destination)
    ensures w.Announces(d) ==>
      CountSent(w.Update(d), Round(w, f, x).sent)
      == CountSent(w.Update(d), f.sent) + if x == d && f.last != [x] then 1 else 0
    ensures CountSent(w.Retraction(d), Round(w, f, x).sent)
         == CountSent(w.Retraction(d), f.sent) + if x == d && f.last != [x] && w.Retracts(x) then 1 else 0
  {
  }

  /** Updates for destination `d` after the sending loop. */
  lemma {:induction false} AnnouncedCount(w: World, b: seq<Entry>, d: Destination)
    requires Labelling(w, b) && SortedBy(Le(), b) && w.Announces(d)
    ensures CountSent(w.Update(d), Rounds(w, b).sent) == (if Queued(d, b) then 1 else 0)
  {
    if b != [] {
      var n := |b| - 1;
      AnnouncedCount(w, b[..n], d);
      RoundCount(w, Rounds(w, b[..n]), b[n].dest, d);
      QueuedSnoc(d, b, n);
      if w.Announces(b[n].dest) { SecondTime(w, b, n); }
    }
  }

  lemma LabelledSnoc(w: World, b: seq<Entry>, n: nat, d: Destination)
    requires Labelling(w, b) && |b| == n + 1
    ensures multiset(b)[w.Labelled(d)] == multiset(b[..n])[w.Labelled(d)] + if b[n].dest == d then 1 else 0
  {
    assert b == b[..n] + [b[n]] && b[n] in b;
  }

  /** Retractions for destination `d` after the sending loop. */
  lemma {:induction false} RetractedCount(w: World, b: seq<Entry>, d: Destination)
    requires Labelling(w, b)
    ensures CountSent(w.Retraction(d), Rounds(w, b).sent) == (if w.Retracts(d) then multiset(b)[w.Labelled(d)] else 0)
  {
    if b != [] {
      var n := |b| - 1;
      LabelledSnoc(w, b, n, d);
      RetractedCount(w, b[..n], d);
      RoundsLast(w, b[..n]);
      RoundCount(w, Rounds(w, b[..n]), b[n].dest, d);
    }
  }

  /** What is sent for a destination, from the tables alone. */
  ghost predicate CalledFor(w: World, s: Sent)
  {
    var d := s.dest;
    var exports := d in w.exported && (d in w.installed ==> w.exported[d] <= w.kernelMetric);
    && (exports ==> s == Announced(w.myid, d, w.myseqno, w.exported[d]))
    && (!exports && d in w.installed ==>
          s == Announced(w.installed[d].id, d, w.installed[d].seqno, w.installed[d].metric) && d !in w.blocked)
    && (!exports && d !in w.installed ==> s == Retracted(w.myid, d, w.myseqno, 0xFFFF))
  }

  lemma {:induction false} OnlyCalledFor(w: World, b: seq<Entry>)
    ensures forall s <- Rounds(w, b).sent :: CalledFor(w, s)
  {
    if b != [] { OnlyCalledFor(w, b[..|b| - 1]); }
  }

  /** How many messages are about a destination. */
  function CountFor(sent: seq<Sent>, d: Destination): nat
  {
    if sent == [] then 0 else (if sent[0].dest == d then 1 else 0) + CountFor(sent[1..], d)
  }

  lemma {:induction false} CountForOne(sent: seq<Sent>, s: Sent)
    requires forall x <- sent | x.dest == s.dest :: x == s
    ensures CountFor(sent, s.dest) == CountSent(s, sent)
  {
    if sent != [] {
      assert sent == [sent[0]] + sent[1..] && sent[0] in sent;
      CountForOne(sent[1..], s);
    }
  }

  /**
    One flush of any queue.  Every message is the one that the tables call for: an exported route that
    is alone or not worse than the kernel metric under the own router-id and seqno; otherwise the
    installed route with its router-id, seqno and metric; otherwise a retraction.  A queued destination
    gets one message however often it was queued, or none when its installed route is blocked by split
    horizon; one without any route gets a retraction for each entry.
  */
  lemma FlushSendsOnce(w: World, q: seq<Destination>, d: Destination)
    ensures var sent := Rounds(w, Sort(Le(), Labels(w, q))).sent;
      var exports := d in w.exported && (d in w.installed ==> w.exported[d] <= w.kernelMetric);
      && (forall s <- sent :: CalledFor(w, s))
      && CountFor(sent, d) ==
           if !exports && d !in w.installed then multiset(q)[d]
           else if d !in q || (!exports && d in w.blocked) then 0
           else 1
  {
    var l := Labels(w, q);
    var b := Sort(Le(), l);
    CompareIsTotalOrder();
    SortSorts(Le(), l);
    SortedLabels(w, q, b, d);
    OnlyCalledFor(w, b);
    RetractedCount(w, b, d);
    LabelsCount(w, q, d);
    var sent := Rounds(w, b).sent;
    if w.Announces(d) {
      AnnouncedCount(w, b, d);
      CountForOne(sent, w.Update(d));
    } else {
      CountForOne(sent, w.Retraction(d));
    }
  }

  /** A round sends at most one message, behind the others, about the destination it is at. */
  lemma RoundAppends(w: World, f: Flushed, d: Destination)
    ensures var sent, n := Round(w, f, d).sent, |f.sent|;
      sent == f.sent || (|sent| == n + 1 && sent[..n] == f.sent && sent[n].dest == d)
  {
  }

  lemma {:induction false} SentAreQueued(w: World, b: seq<Entry>, i: nat)
    requires i < |Rounds(w, b).sent|
    ensures Queued(Rounds(w, b).sent[i].dest, b)
  {
    var n := |b| - 1;
    var f, d := Rounds(w, b[..n]), Rounds(w, b).sent[i].dest;
    RoundAppends(w, f, b[n].dest);
    if i < |f.sent| {
      assert f.sent[i].dest == d;
      SentAreQueued(w, b[..n], i);
    }
    QueuedSnoc(d, b, n);
  }

  lemma LabelledBefore(w: World, b: seq<Entry>, d: Destination, n: nat)
    requires Labelling(w, b) && SortedBy(Le(), b) && |b| == n + 1 && Queued(d, b[..n])
    ensures Le()(w.Labelled(d), w.Labelled(b[n].dest))
  {
    var k :| 0 <= k < n && b[..n][k].dest == d;
    assert b[k] in b && b[n] in b && Le()(b[k], b[n]);
  }

  /** The messages go out in the order of the sorted queue. */
  lemma {:induction false} SentInOrder(w: World, b: seq<Entry>, i: nat, j: nat)
    requires Labelling(w, b) && SortedBy(Le(), b) && i < j < |Rounds(w, b).sent|
    ensures Le()(w.Labelled(Rounds(w, b).sent[i].dest), w.Labelled(Rounds(w, b).sent[j].dest))
  {
    var n := |b| - 1;
    var f, sent := Rounds(w, b[..n]), Rounds(w, b).sent;
    RoundAppends(w, f, b[n].dest);
    assert sent[i] == f.sent[i];
    if j < |f.sent| {
      assert sent[j] == f.sent[j];
      SentInOrder(w, b[..n], i, j);
    } else {
      SentAreQueued(w, b[..n], i);
      LabelledBefore(w, b, sent[i].dest, n);
    }
  }

  /** So they do for every queue. */
  lemma FlushInOrder(w: World, q: seq<Destination>, i: nat, j: nat)
    requires i < j < |Rounds(w, Sort(Le(), Labels(w, q))).sent|
    ensures var sent := Rounds(w, Sort(Le(), Labels(w, q))).sent;
      var x, y := sent[i].dest, sent[j].dest;
      Le()(Entry(if x in w.installed then w.installed[x].id else w.myid, x),
           Entry(if y in w.installed then w.installed[y].id else w.myid, y))
  {
    var b := Sort(Le(), Labels(w, q));
    CompareIsTotalOrder();
    SortSorts(Le(), Labels(w, q));
    SortedLabels(w, q, b, Rounds(w, b).sent[i].dest);
    SentInOrder(w, b, i, j);
  }

  /** A rearrangement of the labelled queue queues the same destinations. */
  lemma SortedLabels(w: World, q: seq<Destination>, b: seq<Entry>, d: Destination)
    requires multiset(b) == multiset(Labels(w, q))
    ensures Labelling(w, b) && (Queued(d, b) <==> d in q)
  {
    var l := Labels(w, q);
    forall e <- b ensures e == w.Labelled(e.dest) && e.dest in q { assert e in multiset(b) && e in multiset(l); }
    if i :| 0 <= i < |b| && b[i].dest == d { assert b[i] in b; }
    if d in q {
      var j :| 0 <= j < |q| && q[j] == d;
      assert l[j] in multiset(l) && l[j] in multiset(b);
      var i :| 0 <= i < |b| && b[i] == l[j];
    }
  }

  lemma {:induction false} LabelsCount(w: World, q: seq<Destination>, d: Destination)
    ensures multiset(Labels(w, q))[w.Labelled(d)] == multiset(q)[d]
  {
    if q != [] {
      var n := |q| - 1;
      assert Labels(w, q) == Labels(w, q[..n]) + [w.Labelled(q[n])];
      assert q == q[..n] + [q[n]];
      LabelsCount(w, q[..n], d);
    }
  }
}

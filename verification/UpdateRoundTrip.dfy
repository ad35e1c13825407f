/**
  Encoder against decoder: whatever sequence of messages a sender buffers and
  flushes, a receiver that sees the packets reconstructs exactly the updates
  that were meant, and the buffer never overflows.
*/
module UpdateRoundTrip {
  import opened Octets
  import opened Distance
  import opened UpdateDecoder
  import opened DecoderLimits
  import opened UpdateEncoder

  function P(): Parser { TlvParser(true) }

  /** The receiver knows everything the sender relies on. */
  ghost predicate Mirrors(s: Sender, st: Decoder)
  {
    && s.havePrefix == st.haveV6 && (s.havePrefix ==> s.prefix == st.v6 && !V4Mapped(s.prefix))
    && (s.haveId ==> st.haveId && st.id == s.id)
    && (s.haveNh ==> |s.nh| == 4 && st.haveV4Nh && st.v4Nh == V4PREFIX + s.nh)
    && !st.haveV6Nh
  }

  ghost predicate SenderOk(s: Sender)
  {
    && s.bufsize >= 64 && s.Buffered() <= s.bufsize && |s.ipv4| in {0, 4}
    && (forall p <- s.packets :: |p| <= s.bufsize)
    && (forall t <- s.tlvs :: Solid(t)) && Clear(FRESH, s.tlvs, true)
    && (forall p <- s.packets :: Certain(p, true))
    && Mirrors(s, StateAfter(P(), FRESH, s.tlvs))
  }

  /** What the receiver of all packets so far has learned, if its memory is clear when each arrives. */
  function Received(packets: seq<seq<Byte>>): seq<Event>
  {
    if packets == [] then [] else Received(packets[..|packets| - 1]) + Decode(packets[|packets| - 1], CLEAR, true)
  }

  /** What it has learned from the packets with their headers, whatever its memory holds when each arrives. */
  function ReceivedIn(packets: seq<seq<Byte>>, ms: seq<Memory>): seq<Event>
    requires |ms| == |packets|
  {
    if packets == [] then []
    else
      var n := |packets| - 1;
      ReceivedIn(packets[..n], ms[..n]) + Understood(Packet(packets[n]), ms[n], true)
  }

  lemma {:induction false} MemoryIgnored(packets: seq<seq<Byte>>, ms: seq<Memory>)
    requires |ms| == |packets| && forall p <- packets :: Certain(p, true) && |p| < 0x10000
    ensures ReceivedIn(packets, ms) == Received(packets)
  {
    if packets != [] {
      var n := |packets| - 1;
      assert packets[n] in packets;
      MemoryIgnored(packets[..n], ms[..n]);
      PacketUnderstood(packets[n], ms[n], true);
    }
  }

  /** ... and will have learned once the buffer is flushed. */
  function Told(s: Sender): seq<Event>
  {
    Received(s.packets) + EventsOf(P(), FRESH, s.tlvs)
  }

  lemma FlushTells(s: Sender)
    requires SenderOk(s)
    ensures SenderOk(Flush(s)) && Told(Flush(s)) == Told(s) == Received(Flush(s).packets)
  {
    var f := Flush(s);
    assert StateAfter(P(), FRESH, []) == FRESH && EventsOf(P(), FRESH, []) == [];
    if s.tlvs != [] {
      DecodeConcat(s.tlvs, CLEAR, true);
      ClearIsCertain(s.tlvs, true);
      assert f.packets[..|f.packets| - 1] == s.packets;
    }
  }

  lemma EnsureSpaceTells(s: Sender, space: nat)
    requires SenderOk(s) && space <= s.bufsize
    ensures var e := EnsureSpace(s, space);
      SenderOk(e) && Told(e) == Told(s) && e.Buffered() + space <= e.bufsize
      && e.bufsize == s.bufsize && e.ipv4 == s.ipv4 && e.interval == s.interval
  {
    FlushTells(s);
  }

  /** A message that fits is appended without a flush. */
  lemma PushFits(s: Sender, t: seq<Byte>)
    requires s.Buffered() + |t| <= s.bufsize
    ensures Push(s, t) == s.(tlvs := s.tlvs + [t]) && Push(s, t).Buffered() == s.Buffered() + |t|
  {
    assert (s.tlvs + [t])[..|s.tlvs|] == s.tlvs;
  }

  /** Appending one message: what the receiver does with it. */
  lemma PushTells(s: Sender, t: seq<Byte>, s': Sender)
    requires SenderOk(s) && Solid(t) && s.Buffered() + |t| <= s.bufsize
    requires s'.bufsize == s.bufsize && s'.ipv4 == s.ipv4 && s'.packets == s.packets && s'.tlvs == s.tlvs + [t]
    requires Mirrors(s', ParseTlv(StateAfter(P(), FRESH, s.tlvs), t, true).0)
    requires !Confused(StateAfter(P(), FRESH, s.tlvs), t)
    ensures SenderOk(s') && s'.Buffered() == s.Buffered() + |t|
    ensures Told(s') == Told(s) + ParseTlv(StateAfter(P(), FRESH, s.tlvs), t, true).1
    ensures StateAfter(P(), FRESH, s'.tlvs) == ParseTlv(StateAfter(P(), FRESH, s.tlvs), t, true).0
  {
    PushFits(s, t);
    AfterOneMore(P(), FRESH, s.tlvs, t);
    ClearSnoc(FRESH, s.tlvs, t, true);
  }

  lemma SendNhTells(s: Sender, u: Update)
    requires SenderOk(s) && s.Buffered() + 60 <= s.bufsize && (IsV4(u) ==> |s.ipv4| == 4)
    ensures var n := SendNh(s, u);
      && SenderOk(n) && Told(n) == Told(s) && n.Buffered() + 52 <= n.bufsize && (IsV4(u) ==> n.haveNh && n.nh == n.ipv4)
      && n.ipv4 == s.ipv4 && n.interval == s.interval && n.bufsize == s.bufsize
  {
    if IsV4(u) && (!s.haveNh || s.nh != s.ipv4) {
      var t := NhTlv(s.ipv4);
      NhParsed(StateAfter(P(), FRESH, s.tlvs), s.ipv4, true);
      PushFits(s, t);
      PushTells(s, t, SendNh(s, u));
    }
  }

  /** After `SendId` the receiver knows the router-id, unless the update itself will tell. */
  lemma SendIdTells(s: Sender, u: Update)
    requires SenderOk(s) && s.Buffered() + 52 <= s.bufsize
    ensures var n := SendId(s, u);
      && n.Buffered() + 40 <= n.bufsize && n.bufsize == s.bufsize && (forall t <- n.tlvs :: Solid(t))
      && n == s.(tlvs := n.tlvs, haveId := true, id := u.id)
      && Told(n) == Told(s)
      && (IdInPrefix(s, u) ==> n.tlvs == s.tlvs)
      && (!IdInPrefix(s, u) ==> SenderOk(n))
  {
    if NewId(s, u) && !IdInPrefix(s, u) {
      IdParsed(StateAfter(P(), FRESH, s.tlvs), u.id, true);
      PushFits(s, IdTlv(u.id));
      PushTells(s, IdTlv(u.id), SendId(s, u));
    }
  }

  function RouteEvent(u: Update, metric: U16, interval: U16, ipv4: seq<Byte>): Event
    requires IsV4(u) ==> |ipv4| == 4
  {
    Route(u.id, u.prefix, u.plen, u.seqno, metric, interval, if IsV4(u) then Via(V4PREFIX + ipv4) else Neighbour)
  }

  /** The decoder state after the update message. */
  function Updated(st: Decoder, s: Sender, u: Update): Decoder
  {
    var st1 := if SetsPrefix(s, u) then st.(haveV6 := true, v6 := u.prefix) else st;
    if IdInPrefix(s, u) then st1.(haveId := true, id := u.id) else st1
  }

  /** The receiver takes `t` for the announcement `e`. */
  ghost predicate Yields(st: Decoder, t: seq<Byte>, st1: Decoder, e: Event)
    requires Framed(t)
  {
    ParseTlv(st, t, true) == (st1, [e])
  }

  /** An update with a readable prefix, from a known router, is accepted. */
  lemma UpdateAccepted(st: Decoder, t: seq<Byte>, r: PrefixResult, st1: Decoder, bits: Byte, nexthop: NextHop)
    requires Framed(t) && t[0] == MESSAGE_UPDATE && t[1] >= 10 && t[2] in {1, 2}
    requires UpdatePrefix(st, t) == r && r.Parsed? && r.used >= 0
    requires st1 == Remember(st, t[2], t[3], r.prefix) && st1.haveId && (t[2] == 1 ==> st.haveV4Nh)
    requires bits == (t[4] as int) + if t[2] == 1 then 96 else 0
    requires nexthop == if t[2] == 1 then Via(st.v4Nh) else if st.haveV6Nh then Via(st.v6Nh) else Neighbour
    ensures Yields(st, t, st1, Route(st1.id, r.prefix, bits, Get16(t[8..]), Get16(t[10..]), Get16(t[6..]), nexthop))
  {
    UpdateTaken(st, t, r, st1, bits, nexthop);
  }

  /** The fields of the message named in `UpdateFields`, accepted. */
  lemma MessageAccepted(st: Decoder, ae: Byte, flags: Byte, plen: Byte, omit: Byte, interval: U16, seqno: U16,
                        metric: U16, data: seq<Byte>, used: nat, prefix: Prefix, t: seq<Byte>, st1: Decoder,
                        bits: Byte, nexthop: NextHop)
    requires |data| <= 26 && ae in {1, 2} && flags != 1
    requires omit == 0 || st.haveV6
    requires NetworkPrefix(ae, plen, omit, data, if ae == 1 then st.v4 else st.v6, |data|) == Parsed(used, prefix)
    requires t == UpdateTlv(ae, flags, plen, omit, interval, seqno, metric, data)
    requires st1 == Remember(st, ae, flags, prefix) && st1.haveId && (ae == 1 ==> st.haveV4Nh)
    requires bits == (plen as int) + if ae == 1 then 96 else 0
    requires nexthop == if ae == 1 then Via(st.v4Nh) else if st.haveV6Nh then Via(st.v6Nh) else Neighbour
    ensures Yields(st, t, st1, Route(st1.id, prefix, bits, seqno, metric, interval, nexthop))
  {
    UpdateFields(ae, flags, plen, omit, interval, seqno, metric, data);
    assert t[12..] == data && |t| - 12 == |data|;
    UpdateAccepted(st, t, Parsed(used, prefix), st1, bits, nexthop);
  }

  lemma NothingToRemember(st: Decoder, ae: Byte, prefix: Prefix)
    ensures Remember(st, ae, 0, prefix) == st
  {
  }

  lemma V4MessageAccepted(st: Decoder, s: Sender, u: Update, metric: U16, channels: seq<Byte>, e: Event)
    requires Canonical(u.prefix, u.plen) && IsV4(u) && |channels| <= 10 && st.haveId && st.haveV4Nh
    requires e == Route(st.id, u.prefix, u.plen, u.seqno, metric, s.interval, Via(st.v4Nh))
    ensures Yields(st, V4Message(s, u, metric, channels), st, e)
  {
    V4Decompressed(u.prefix, u.plen, st.v4, channels);
    NothingToRemember(st, 1, u.prefix);
    var data := u.prefix[12..12 + PrefixBytes(u.plen - 96)] + channels;
    MessageAccepted(st, 1, 0, u.plen - 96, 0, s.interval, u.seqno, metric, data, PrefixBytes(u.plen - 96), u.prefix,
                    V4Message(s, u, metric, channels), st, u.plen, Via(st.v4Nh));
  }

  lemma V4MessageParsed(st: Decoder, s: Sender, u: Update, metric: U16, channels: seq<Byte>)
    requires Canonical(u.prefix, u.plen) && IsV4(u) && |channels| <= 10 && |s.ipv4| == 4
    requires st.haveId && st.id == u.id && st.haveV4Nh && st.v4Nh == V4PREFIX + s.ipv4
    ensures Yields(st, MessageFor(s, u, metric, channels), st, RouteEvent(u, metric, s.interval, s.ipv4))
  {
    V4MessageAccepted(st, s, u, metric, channels, RouteEvent(u, metric, s.interval, s.ipv4));
  }

  lemma FlagsRead(sets: bool, inPrefix: bool)
    ensures var flags := FlagsOf(sets, inPrefix); Bit80(flags) == sets && Bit40(flags) == inPrefix && flags != 1
  {
  }

  lemma V6MessageAccepted(st: Decoder, sets: bool, inPrefix: bool, omit: Byte, s: Sender, u: Update, metric: U16,
                          channels: seq<Byte>, st1: Decoder, e: Event)
    requires Canonical(u.prefix, u.plen) && |channels| <= 10 && !st.haveV6Nh
    requires omit <= u.plen / 8 && (omit > 0 ==> st.haveV6 && !V4Mapped(st.v6)) && st.v6[..omit] == u.prefix[..omit]
    requires st1 == Remember(st, 2, FlagsOf(sets, inPrefix), u.prefix) && st1.haveId
    requires e == Route(st1.id, u.prefix, u.plen, u.seqno, metric, s.interval, Neighbour)
    ensures PrefixBytes(u.plen) <= 16 && Yields(st, V6Message(sets, inPrefix, omit, s, u, metric, channels), st1, e)
  {
    V6Decompressed(u.prefix, u.plen, omit, st.v6, channels);
    FlagsRead(sets, inPrefix);
    var data := u.prefix[omit..PrefixBytes(u.plen)] + channels;
    MessageAccepted(st, 2, FlagsOf(sets, inPrefix), u.plen, omit, s.interval, u.seqno, metric, data,
                    PrefixBytes(u.plen) - omit, u.prefix,
                    V6Message(sets, inPrefix, omit, s, u, metric, channels), st1, u.plen, Neighbour);
  }

  lemma V6MessageParsed(st: Decoder, s: Sender, u: Update, metric: U16, channels: seq<Byte>)
    requires Canonical(u.prefix, u.plen) && !IsV4(u) && |channels| <= 10 && !st.haveV6Nh
    requires s.havePrefix == st.haveV6 && (s.havePrefix ==> s.prefix == st.v6 && !V4Mapped(s.prefix))
    requires IdInPrefix(s, u) || (st.haveId && st.id == u.id)
    ensures Yields(st, MessageFor(s, u, metric, channels), Updated(st, s, u), RouteEvent(u, metric, s.interval, s.ipv4))
  {
    UpdatedRemembers(st, s, u);
    V6MessageAccepted(st, SetsPrefix(s, u), IdInPrefix(s, u), Omit(s, u), s, u, metric, channels,
                      Updated(st, s, u), RouteEvent(u, metric, s.interval, s.ipv4));
  }

  lemma UpdatedRemembers(st: Decoder, s: Sender, u: Update)
    requires !IsV4(u)
    ensures Remember(st, 2, FlagsOf(SetsPrefix(s, u), IdInPrefix(s, u)), u.prefix) == Updated(st, s, u)
  {
    FlagsRead(SetsPrefix(s, u), IdInPrefix(s, u));
  }

  /** No message of the sender depends on a default prefix that the receiver lacks. */
  lemma MessageClear(st: Decoder, s: Sender, u: Update, metric: U16, channels: seq<Byte>)
    requires u.plen <= 128 && |channels| <= 10
    ensures !Confused(st, MessageFor(s, u, metric, channels))
  {
    if IsV4(u) {
      UpdateFields(1, 0, u.plen - 96, 0, s.interval, u.seqno, metric,
                   u.prefix[12..12 + PrefixBytes(u.plen - 96)] + channels);
    } else {
      var flags := FlagsOf(SetsPrefix(s, u), IdInPrefix(s, u));
      UpdateFields(2, flags, u.plen, Omit(s, u), s.interval, u.seqno, metric,
                   u.prefix[Omit(s, u)..PrefixBytes(u.plen)] + channels);
    }
  }

  lemma V4MessageTells(s2: Sender, u: Update, metric: U16, channels: seq<Byte>)
    requires SenderOk(s2) && s2.Buffered() + 52 <= s2.bufsize
    requires Canonical(u.prefix, u.plen) && |channels| <= 10
    requires IsV4(u) && |s2.ipv4| == 4 && s2.haveNh && s2.nh == s2.ipv4
    ensures var s5 := SendMessage(s2, u, metric, channels);
      SenderOk(s5) && Told(s5) == Told(s2) + [RouteEvent(u, metric, s2.interval, s2.ipv4)]
  {
    SendIdTells(s2, u);
    var s3, t := SendId(s2, u), MessageFor(s2, u, metric, channels);
    PushFits(s3, t);
    V4MessageParsed(StateAfter(P(), FRESH, s3.tlvs), s2, u, metric, channels);
    MessageClear(StateAfter(P(), FRESH, s3.tlvs), s2, u, metric, channels);
    PushTells(s3, t, SendMessage(s2, u, metric, channels));
  }

  lemma V6MessageTells(s2: Sender, u: Update, metric: U16, channels: seq<Byte>)
    requires SenderOk(s2) && s2.Buffered() + 52 <= s2.bufsize
    requires Canonical(u.prefix, u.plen) && |channels| <= 10
    requires !IsV4(u)
    ensures var s5 := SendMessage(s2, u, metric, channels);
      SenderOk(s5) && Told(s5) == Told(s2) + [RouteEvent(u, metric, s2.interval, s2.ipv4)]
  {
    SendIdTells(s2, u);
    var s3, t := SendId(s2, u), MessageFor(s2, u, metric, channels);
    PushFits(s3, t);
    if V4Mapped(u.prefix) { MappedIsV4(u.prefix, u.plen); }
    V6MessageParsed(StateAfter(P(), FRESH, s3.tlvs), s2, u, metric, channels);
    MessageClear(StateAfter(P(), FRESH, s3.tlvs), s2, u, metric, channels);
    PushTells(if IdInPrefix(s2, u) then s2 else s3, t, SendMessage(s2, u, metric, channels));
  }

  /** The update message itself, after next hop and router-id are settled. */
  lemma MessageTells(s2: Sender, u: Update, metric: U16, channels: seq<Byte>)
    requires SenderOk(s2) && s2.Buffered() + 52 <= s2.bufsize
    requires Canonical(u.prefix, u.plen) && |channels| <= 10
    requires IsV4(u) ==> |s2.ipv4| == 4 && s2.haveNh && s2.nh == s2.ipv4
    ensures var s5 := SendMessage(s2, u, metric, channels);
      SenderOk(s5) && Told(s5) == Told(s2) + [RouteEvent(u, metric, s2.interval, s2.ipv4)]
  {
    if IsV4(u) {
      V4MessageTells(s2, u, metric, channels);
    } else {
      V6MessageTells(s2, u, metric, channels);
    }
  }

  /** What one call of `really_send_update` should tell the receiver. */
  function Expected(s: Sender, u: Update, up: bool, filter: U16): seq<Event>
    requires |s.ipv4| in {0, 4}
  {
    if Refused(s, up, filter) || (IsV4(u) && s.ipv4 == []) then []
    else [RouteEvent(u, Min((u.metric as int) + filter, INFINITY), s.interval, s.ipv4)]
  }

  lemma SendUpdateTells(s: Sender, u: Update, up: bool, filter: U16, channels: seq<Byte>)
    requires SenderOk(s) && Canonical(u.prefix, u.plen) && |channels| <= 10
    ensures var n := SendUpdate(s, u, up, filter, channels);
      SenderOk(n) && Told(n) == Told(s) + Expected(s, u, up, filter)
  {
    if !Refused(s, up, filter) {
      EnsureSpaceTells(s, 60);
      var s1 := EnsureSpace(s, 60);
      if !(IsV4(u) && s1.ipv4 == []) {
        SendNhTells(s1, u);
        MessageTells(SendNh(s1, u), u, Min((u.metric as int) + filter, INFINITY), channels);
      }
    }
  }

  // ---------- Every sequence of messages ----------

  /** What a sender can be asked to do between two packets and within one. */
  datatype Op =
    | Send(u: Update, up: bool, filter: U16, channels: seq<Byte>)   // really_send_update
    | Wildcard(up: bool, seqno: U16)                                // send_wildcard_retraction
    | Other(t: seq<Byte>)                                           // hello, IHU, request, ...
    | FlushNow                                                      // flushbuf
    | Readdress(ipv4: seq<Byte>)                                    // the interface's IPv4 address changes

  ghost predicate OpOk(op: Op)
  {
    match op
    case Send(u, _, _, channels) => Canonical(u.prefix, u.plen) && |channels| <= 10
    case Wildcard(_, _) => true
    case Other(t) => Solid(t) && |t| <= 64 && t[0] !in {MESSAGE_ROUTER_ID, MESSAGE_NH, MESSAGE_UPDATE}
    case FlushNow => true
    case Readdress(ipv4) => |ipv4| in {0, 4}
  }

  ghost function Apply(s: Sender, op: Op): Sender
    requires OpOk(op) && |s.ipv4| in {0, 4}
  {
    match op
    case Send(u, up, filter, channels) => SendUpdate(s, u, up, filter, channels)
    case Wildcard(up, seqno) => SendWildcard(s, up, seqno)
    case Other(t) => Push(s, t)
    case FlushNow => Flush(s)
    case Readdress(ipv4) => s.(ipv4 := ipv4)
  }

  ghost function ExpectedOf(s: Sender, op: Op): seq<Event>
    requires |s.ipv4| in {0, 4}
  {
    match op
    case Send(u, up, filter, _) => Expected(s, u, up, filter)
    case Wildcard(up, _) => if up then [RetractAll] else []
    case _ => []
  }

  lemma WildcardParsed(st: Decoder, seqno: U16)
    ensures ParseTlv(st, WildcardTlv(seqno), true)
        == (st.(haveId := true, id := [0, 0, 0, 0, 0, 0, 0, 0]), [RetractAll])
  {
    UpdateFields(0, 0x40, 0, 0, 0xFFFF, seqno, 0xFFFF, []);
    var t := WildcardTlv(seqno);
    assert MaskPrefix(ZEROS, 0) == ZEROS;
    assert UpdatePrefix(st, t) == Parsed(0, ZEROS);
    assert ZEROS[8..] == [0, 0, 0, 0, 0, 0, 0, 0];
    assert Remember(st, 0, 0x40, ZEROS) == st.(haveId := true, id := [0, 0, 0, 0, 0, 0, 0, 0]);
  }

  lemma WildcardTells(s: Sender, seqno: U16)
    requires SenderOk(s)
    ensures SenderOk(SendWildcard(s, true, seqno)) && Told(SendWildcard(s, true, seqno)) == Told(s) + [RetractAll]
  {
    var t := WildcardTlv(seqno);
    var e := EnsureSpace(s, |t|);
    EnsureSpaceTells(s, |t|);
    WildcardParsed(StateAfter(P(), FRESH, e.tlvs), seqno);
    UpdateFields(0, 0x40, 0, 0, 0xFFFF, seqno, 0xFFFF, []);
    PushTells(e, t, SendWildcard(s, true, seqno));
  }

  lemma OtherTells(s: Sender, t: seq<Byte>)
    requires SenderOk(s) && OpOk(Other(t))
    ensures SenderOk(Push(s, t)) && Told(Push(s, t)) == Told(s)
  {
    EnsureSpaceTells(s, |t|);
    PushTells(EnsureSpace(s, |t|), t, Push(s, t));
  }

  lemma ApplyTells(s: Sender, op: Op)
    requires SenderOk(s) && OpOk(op)
    ensures SenderOk(Apply(s, op)) && Told(Apply(s, op)) == Told(s) + ExpectedOf(s, op)
  {
    match op {
      case Send(u, up, filter, channels) => SendUpdateTells(s, u, up, filter, channels);
      case Wildcard(up, seqno) => if up { WildcardTells(s, seqno); }
      case Other(t) => OtherTells(s, t);
      case FlushNow => FlushTells(s);
      case Readdress(_) =>
    }
  }

  ghost predicate OpsOk(ops: seq<Op>) { forall op <- ops :: OpOk(op) }

  /** The senders before, between and after the operations. */
  ghost predicate Trace(ss: seq<Sender>, ops: seq<Op>)
  {
    && |ss| == |ops| + 1 && OpsOk(ops)
    && forall i | 0 <= i < |ops| :: |ss[i].ipv4| in {0, 4} && ss[i + 1] == Apply(ss[i], ops[i])
  }

  /** The announcements that the first `n` operations are meant to make, in order. */
  ghost function Meant(ss: seq<Sender>, ops: seq<Op>, n: nat): seq<Event>
    requires Trace(ss, ops) && n <= |ops|
  {
    if n == 0 then [] else Meant(ss, ops, n - 1) + ExpectedOf(ss[n - 1], ops[n - 1])
  }

  lemma TraceStep(ss: seq<Sender>, ops: seq<Op>, n: nat)
    requires Trace(ss, ops) && n < |ops| && SenderOk(ss[n])
    ensures SenderOk(ss[n + 1]) && Told(ss[n + 1]) == Told(ss[n]) + ExpectedOf(ss[n], ops[n])
  {
    assert OpOk(ops[n]);
    ApplyTells(ss[n], ops[n]);
  }

  lemma ToldMore(first: seq<Event>, meant: seq<Event>, more: seq<Event>, before: seq<Event>, after: seq<Event>)
    requires before == first + meant && after == before + more
    ensures after == first + (meant + more)
  {
  }

  lemma {:induction false} TraceTells(ss: seq<Sender>, ops: seq<Op>, n: nat)
    requires Trace(ss, ops) && n <= |ops| && SenderOk(ss[0])
    ensures SenderOk(ss[n]) && Told(ss[n]) == Told(ss[0]) + Meant(ss, ops, n)
  {
    if n > 0 {
      var k := n - 1;
      TraceTells(ss, ops, k);
      TraceStep(ss, ops, k);
      ToldMore(Told(ss[0]), Meant(ss, ops, k), ExpectedOf(ss[k], ops[k]), Told(ss[k]), Told(ss[n]));
    }
  }

  /** An interface that has just come up with the given MTU (babel_interface.c). */
  function NewSender(mtu: nat, interval: U16): Sender
  {
    Sender(Max(mtu, 128) - 4 - 60, interval, [], [], [], false, [0, 0, 0, 0, 0, 0, 0, 0], false, [], false, ZEROS)
  }

  lemma NewSenderOk(mtu: nat, interval: U16)
    ensures SenderOk(NewSender(mtu, interval)) && Told(NewSender(mtu, interval)) == []
  {
  }

  /**
    Round trip: at every point of every run of a new interface, the packets sent so far and
    the one that a flush would send decode, one by one, to exactly the announcements that
    were meant, in order, whatever the receiver's memory holds; and neither the buffer nor
    any packet exceeds the buffer's size, which must fit the 16 bits of the packet header.
  */
  lemma UpdatesRoundTrip(mtu: nat, interval: U16, ss: seq<Sender>, ops: seq<Op>, n: nat)
    requires Trace(ss, ops) && ss[0] == NewSender(mtu, interval) && n <= |ops|
    ensures ss[n].Buffered() <= ss[n].bufsize && forall p <- Flush(ss[n]).packets :: |p| <= ss[n].bufsize
    ensures ss[n].bufsize < 0x10000 ==>
      forall ms: seq<Memory> | |ms| == |Flush(ss[n]).packets| ::
          ReceivedIn(Flush(ss[n]).packets, ms) == Meant(ss, ops, n)
  {
    NewSenderOk(mtu, interval);
    TraceTells(ss, ops, n);
    FlushTells(ss[n]);
    var packets := Flush(ss[n]).packets;
    if ss[n].bufsize < 0x10000 {
      forall ms: seq<Memory> | |ms| == |packets| ensures ReceivedIn(packets, ms) == Meant(ss, ops, n) {
        MemoryIgnored(packets, ms);
      }
    }
  }
}

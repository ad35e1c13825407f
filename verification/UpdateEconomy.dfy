/**
  What really_send_update (quagga-srx/babeld/message.c) leaves out: the octets that one update
  adds to the packet, and when a packet is sent first.
*/
module UpdateEconomy {
  import opened Octets
  import opened Distance
  import opened UpdateDecoder
  import opened UpdateEncoder

  // ---------- The octets of each message ----------

  /** Types, lengths and fields as sections 4.4.7 to 4.4.9 of RFC 6126 lay them out. */
  lemma MessageOctets(address: seq<Byte>, id: RouterId)
    requires |address| == 4
    ensures NhTlv(address) == [7, 6, 1, 0] + address && IdTlv(id) == [6, 10, 0, 0] + id
  {
  }

  lemma UpdateOctets(ae: Byte, flags: Byte, plen: Byte, omit: Byte, interval: U16, seqno: U16, metric: U16,
      data: seq<Byte>)
    requires |data| <= 26
    ensures var t := UpdateTlv(ae, flags, plen, omit, interval, seqno, metric, data);
      && t[..6] == [8, 10 + |data|, ae, flags, plen, omit] && t[12..] == data
      && [t[6], t[7]] == [interval / 0x100, interval % 0x100] && [t[8], t[9]] == [seqno / 0x100, seqno % 0x100]
      && [t[10], t[11]] == [metric / 0x100, metric % 0x100]
  {
    UpdateFields(ae, flags, plen, omit, interval, seqno, metric, data);
  }

  /** A wildcard retraction: encoding 0, the router-id flag on a prefix of zeros, all metrics infinite. */
  lemma WildcardOctets(seqno: U16)
    ensures WildcardTlv(seqno)
         == [8, 10, 0, 0x40, 0, 0, 0xFF, 0xFF, seqno / 0x100, seqno % 0x100, 0xFF, 0xFF]
  {
    var t := WildcardTlv(seqno);
    UpdateOctets(0, 0x40, 0, 0, 0xFFFF, seqno, 0xFFFF, []);
    assert t == t[..6] + [t[6], t[7]] + [t[8], t[9]] + [t[10], t[11]] + t[12..];
  }

  /** It goes out when the interface is up, and the receiver must be told the next router-id. */
  lemma WildcardAppends(s: Sender, up: bool, seqno: U16)
    requires |Concat(s.tlvs)| + 12 <= s.bufsize
    ensures SendWildcard(s, up, seqno) ==
      if up then s.(tlvs := s.tlvs + [WildcardTlv(seqno)], haveId := false) else s
  {
    PushFits(s, WildcardTlv(seqno));
  }

  // ---------- One update ----------

  /** An IPv4 destination. */
  ghost predicate MappedV4(u: Update)
  {
    u.plen >= 96 && u.prefix[..10] == [0, 0, 0, 0, 0, 0, 0, 0, 0, 0] && u.prefix[10] == u.prefix[11] == 0xFF
  }

  lemma MappedIsV4(u: Update)
    ensures IsV4(u) <==> MappedV4(u)
  {
    var p := u.prefix;
    assert p[..12] == p[..10] + [p[10], p[11]];
  }

  /** As many octets as can be left out: those of the default prefix, up to the last whole octet of this one. */
  ghost predicate LeavesOut(s: Sender, u: Update, k: nat)
  {
    if MappedV4(u) || !s.havePrefix then k == 0
    else
      && k <= u.plen / 8 <= 16 && s.prefix[..k] == u.prefix[..k]
      && (k < u.plen / 8 ==> s.prefix[k] != u.prefix[k])
  }

  /** The receiver has not been told the next hop in this packet. */
  ghost predicate NeedsNh(s: Sender, u: Update) { MappedV4(u) && !(s.haveNh && s.nh == s.ipv4) }

  /** Nor the router-id, which it cannot read off the end of the prefix either. */
  ghost predicate NeedsId(s: Sender, u: Update)
  {
    !(s.haveId && s.id == u.id) && !(!MappedV4(u) && u.plen == 128 && u.prefix[8..] == u.id)
  }

  /** The messages that an update needs in a packet with room for 60 octets. */
  ghost predicate Appended(s: Sender, u: Update, k: nat, metric: U16, channels: seq<Byte>, ts: seq<seq<Byte>>)
    requires u.plen <= 128 && |channels| <= 10
  {
    var nh := if NeedsNh(s, u) then [[7, 6, 1, 0] + s.ipv4] else [];
    var id := if NeedsId(s, u) then [[6, 10, 0, 0] + u.id] else [];
    && |ts| == |nh| + |id| + 1 && ts[..|nh| + |id|] == nh + id && ts[|ts| - 1] == MessageFor(s, u, metric, channels)
    && |ts[|ts| - 1]| == 12 + (if MappedV4(u) then (u.plen - 96 + 7) / 8 else (u.plen + 7) / 8) - k + |channels|
  }

  lemma PushFits(s: Sender, t: seq<Byte>)
    requires |Concat(s.tlvs)| + |t| <= s.bufsize
    ensures Push(s, t) == s.(tlvs := s.tlvs + [t])
    ensures |Concat(s.tlvs + [t])| == |Concat(s.tlvs)| + |t|
  {
    assert (s.tlvs + [t])[..|s.tlvs|] == s.tlvs;
  }

  /** The NH message, if one is needed. */
  lemma NhAppended(s: Sender, u: Update)
    requires MappedV4(u) ==> |s.ipv4| == 4
    requires |Concat(s.tlvs)| + 8 <= s.bufsize
    ensures IsV4(u) ==> |s.ipv4| == 4
    ensures var s2 := SendNh(s, u);
      && s2 == s.(tlvs := s2.tlvs, haveNh := s2.haveNh, nh := s2.nh) && |Concat(s2.tlvs)| <= |Concat(s.tlvs)| + 8
      && s2.tlvs == s.tlvs + (if NeedsNh(s, u) then [[7, 6, 1, 0] + s.ipv4] else [])
      && (MappedV4(u) ==> s2.haveNh && s2.nh == s.ipv4)
  {
    MappedIsV4(u);
    if NeedsNh(s, u) { PushFits(s, NhTlv(s.ipv4)); }
  }

  /** The ROUTER_ID message, if one is needed. */
  lemma IdAppended(s: Sender, u: Update)
    requires |Concat(s.tlvs)| + 12 <= s.bufsize
    ensures var s3 := SendId(s, u);
      && s3 == s.(tlvs := s3.tlvs, haveId := true, id := u.id) && |Concat(s3.tlvs)| <= |Concat(s.tlvs)| + 12
      && s3.tlvs == s.tlvs + if NeedsId(s, u) then [[6, 10, 0, 0] + u.id] else []
  {
    MappedIsV4(u);
    if NeedsId(s, u) { PushFits(s, IdTlv(u.id)); }
  }

  lemma OmitsMost(s: Sender, u: Update, k: nat)
    requires u.plen <= 128 && LeavesOut(s, u, k)
    ensures Omit(s, u) == k
  {
    MappedIsV4(u);
    if !IsV4(u) && s.havePrefix {
      var c := Common(s.prefix, u.prefix, u.plen / 8);
      assert forall j | 0 <= j < k :: s.prefix[j] == s.prefix[..k][j] == u.prefix[..k][j] == u.prefix[j];
      assert forall j | 0 <= j < c :: s.prefix[j] == s.prefix[..c][j] == u.prefix[..c][j] == u.prefix[j];
    }
  }

  lemma MessageSize(s: Sender, u: Update, metric: U16, channels: seq<Byte>, k: nat)
    requires u.plen <= 128 && |channels| <= 10 && LeavesOut(s, u, k)
    ensures |MessageFor(s, u, metric, channels)|
         == 12 + (if MappedV4(u) then (u.plen - 96 + 7) / 8 else (u.plen + 7) / 8) - k + |channels|
  {
    MappedIsV4(u);
    OmitsMost(s, u, k);
  }

  /** Flags: 0x80 when the prefix becomes the default, 0x40 when it carries a router-id that is new. */
  ghost predicate FlagsFor(s: Sender, u: Update, flags: Byte)
  {
    var sets := !MappedV4(u) && (!s.havePrefix || u.plen >= 48);
    var carries := !(s.haveId && s.id == u.id) && !MappedV4(u) && u.plen == 128 && u.prefix[8..] == u.id;
    flags == (if sets then 0x80 else 0) + (if carries then 0x40 else 0)
  }

  /** The fixed fields of an update message. */
  ghost predicate Fields(t: seq<Byte>, ae: Byte, plen: int, omit: nat, interval: U16, seqno: U16, metric: U16)
  {
    && |t| >= 12 && t[0] == 8 && t[1] == |t| - 2 && t[2] == ae && t[4] == plen && t[5] == omit
    && [t[6], t[7]] == [interval / 0x100, interval % 0x100]
    && [t[8], t[9], t[10], t[11]] == [seqno / 0x100, seqno % 0x100, metric / 0x100, metric % 0x100]
  }

  /** The update message, octet by octet: IPv4 whole, IPv6 without the octets left out. */
  lemma MessageLayout(s: Sender, u: Update, metric: U16, channels: seq<Byte>, k: nat)
    requires u.plen <= 128 && |channels| <= 10 && LeavesOut(s, u, k)
    ensures var t := MessageFor(s, u, metric, channels);
      && FlagsFor(s, u, t[3])
      && (if MappedV4(u)
          then Fields(t, 1, u.plen - 96, 0, s.interval, u.seqno, metric)
               && t[12..] == u.prefix[12..12 + (u.plen - 96 + 7) / 8] + channels
          else Fields(t, 2, u.plen, k, s.interval, u.seqno, metric)
               && t[12..] == u.prefix[k..(u.plen + 7) / 8] + channels)
  {
    MappedIsV4(u);
    OmitsMost(s, u, k);
    if MappedV4(u) { V4Layout(s, u, metric, channels); } else { V6Layout(s, u, metric, channels, k); }
  }

  lemma V4Layout(s: Sender, u: Update, metric: U16, channels: seq<Byte>)
    requires 96 <= u.plen <= 128 && |channels| <= 10
    ensures var t := V4Message(s, u, metric, channels);
      && Fields(t, 1, u.plen - 96, 0, s.interval, u.seqno, metric) && t[3] == 0
      && t[12..] == u.prefix[12..12 + (u.plen - 96 + 7) / 8] + channels
  {
    FieldsAt(1, 0, u.plen - 96, 0, s.interval, u.seqno, metric, u.prefix[12..12 + PrefixBytes(u.plen - 96)] + channels);
  }

  lemma V6Layout(s: Sender, u: Update, metric: U16, channels: seq<Byte>, k: nat)
    requires u.plen <= 128 && |channels| <= 10 && k <= PrefixBytes(u.plen)
    ensures var t := V6Message(SetsPrefix(s, u), IdInPrefix(s, u), k, s, u, metric, channels);
      && Fields(t, 2, u.plen, k, s.interval, u.seqno, metric) && t[3] == FlagsOf(SetsPrefix(s, u), IdInPrefix(s, u))
      && t[12..] == u.prefix[k..(u.plen + 7) / 8] + channels
  {
    FieldsAt(2, FlagsOf(SetsPrefix(s, u), IdInPrefix(s, u)), u.plen, k, s.interval, u.seqno, metric,
             u.prefix[k..PrefixBytes(u.plen)] + channels);
  }

  lemma FieldsAt(ae: Byte, flags: Byte, plen: Byte, omit: Byte, interval: U16, seqno: U16, metric: U16, data: seq<Byte>)
    requires |data| <= 26
    ensures var t := UpdateTlv(ae, flags, plen, omit, interval, seqno, metric, data);
      Fields(t, ae, plen, omit, interval, seqno, metric) && t[3] == flags && t[12..] == data
  {
    UpdateOctets(ae, flags, plen, omit, interval, seqno, metric, data);
  }

  /** With room for 60 octets nothing is flushed, and just what is needed is appended. */
  lemma SendMessageAppends(s: Sender, u: Update, metric: U16, channels: seq<Byte>, k: nat)
    requires u.plen <= 128 && |channels| <= 10 && (MappedV4(u) ==> |s.ipv4| == 4)
    requires |Concat(s.tlvs)| + 60 <= s.bufsize && LeavesOut(s, u, k)
    ensures IsV4(u) ==> |s.ipv4| == 4
    ensures var end := SendMessage(SendNh(s, u), u, metric, channels);
      && end.packets == s.packets && |end.tlvs| >= |s.tlvs| && end.tlvs[..|s.tlvs|] == s.tlvs
      && Appended(s, u, k, metric, channels, end.tlvs[|s.tlvs|..])
      && end.haveId && end.id == u.id && (MappedV4(u) ==> end.haveNh && end.nh == s.ipv4)
      && (if !MappedV4(u) && (!s.havePrefix || u.plen >= 48) then end.havePrefix && end.prefix == u.prefix
          else end.havePrefix == s.havePrefix && end.prefix == s.prefix)
  {
    MappedIsV4(u);
    NhAppended(s, u);
    var s2 := SendNh(s, u);
    IdAppended(s2, u);
    var s3, t := SendId(s2, u), MessageFor(s2, u, metric, channels);
    MessageSize(s2, u, metric, channels, k);
    assert |t| <= 38;
    PushFits(s3, t);
    var nh := if NeedsNh(s, u) then [[7, 6, 1, 0] + s.ipv4] else [];
    var id := if NeedsId(s, u) then [[6, 10, 0, 0] + u.id] else [];
    assert t == MessageFor(s, u, metric, channels);
    MessagesAppended(s, u, k, metric, channels, nh, id, t, Push(s3, t).tlvs);
  }

  lemma MessagesAppended(s: Sender, u: Update, k: nat, metric: U16, channels: seq<Byte>, nh: seq<seq<Byte>>,
      id: seq<seq<Byte>>, t: seq<Byte>, tlvs: seq<seq<Byte>>)
    requires u.plen <= 128 && |channels| <= 10 && t == MessageFor(s, u, metric, channels)
    requires nh == if NeedsNh(s, u) then [[7, 6, 1, 0] + s.ipv4] else []
    requires id == if NeedsId(s, u) then [[6, 10, 0, 0] + u.id] else []
    requires |t| == 12 + (if MappedV4(u) then (u.plen - 96 + 7) / 8 else (u.plen + 7) / 8) - k + |channels|
    requires tlvs == s.tlvs + nh + id + [t]
    ensures |tlvs| >= |s.tlvs| && tlvs[..|s.tlvs|] == s.tlvs && Appended(s, u, k, metric, channels, tlvs[|s.tlvs|..])
  {
    var ts, n := tlvs[|s.tlvs|..], |nh| + |id|;
    assert ts == nh + id + [t];
    assert ts[..n] == nh + id && ts[n] == t;
  }

  /** The sender that a packet of its own leaves. */
  ghost predicate Emptied(s: Sender, e: Sender)
  {
    && e.tlvs == [] && !e.haveId && !e.haveNh && !e.havePrefix
    && e.packets == (if s.tlvs == [] then s.packets else s.packets + [Concat(s.tlvs)])
    && (e.bufsize, e.interval, e.ipv4) == (s.bufsize, s.interval, s.ipv4)
  }

  /**
    `really_send_update`: nothing on an interface that is down or behind a filter; otherwise the packet
    goes out first if it has less room than 60 octets, and an IPv4 prefix on an interface without
    address ends there; otherwise the fewest messages with the fewest octets are appended.
  */
  lemma SendUpdateAppends(s: Sender, u: Update, up: bool, filter: U16, channels: seq<Byte>) returns (e: Sender, k: nat)
    requires u.plen <= 128 && |channels| <= 10 && |s.ipv4| in {0, 4} && s.bufsize >= 60
    ensures !up || filter >= 0xFFFF ==> SendUpdate(s, u, up, filter, channels) == s
    ensures if |Concat(s.tlvs)| + 60 <= s.bufsize then e == s else Emptied(s, e)
    ensures up && filter < 0xFFFF && MappedV4(u) && s.ipv4 == [] ==> SendUpdate(s, u, up, filter, channels) == e
    ensures up && filter < 0xFFFF && !(MappedV4(u) && s.ipv4 == []) ==>
      var end := SendUpdate(s, u, up, filter, channels);
      && end.packets == e.packets && |end.tlvs| >= |e.tlvs| && end.tlvs[..|e.tlvs|] == e.tlvs
      && LeavesOut(e, u, k)
      && Appended(e, u, k, Min((u.metric as int) + filter, 0xFFFF), channels, end.tlvs[|e.tlvs|..])
  {
    MappedIsV4(u);
    e := EnsureSpace(s, 60);
    k := Omit(e, u);
    if up && filter < 0xFFFF && !(MappedV4(u) && s.ipv4 == []) {
      SendMessageAppends(e, u, Min((u.metric as int) + filter, INFINITY), channels, k);
    }
  }
}

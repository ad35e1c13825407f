/**
  The sending side of Babel's update messages (really_send_update and the buffer
  primitives of quagga-srx/babeld/message.c): what is left out of a message
  because the receiver still knows it from the same packet.
*/
module UpdateEncoder {
  import opened Octets
  import opened Distance
  import opened UpdateDecoder

  /** The sending half of an interface: buffered TLVs, sent packets, and what the receiver is known to remember. */
  datatype Sender = Sender(
    bufsize: nat,
    interval: U16,                // (update_interval + 5) / 10
    ipv4: seq<Byte>,              // address of the interface: four octets, or none
    tlvs: seq<seq<Byte>>,         // messages in sendbuf
    packets: seq<seq<Byte>>,      // bodies handed to babel_send
    haveId: bool, id: RouterId,
    haveNh: bool, nh: seq<Byte>,
    havePrefix: bool, prefix: Prefix)
  {
    function Buffered(): nat { |Concat(tlvs)| }
  }

  datatype Update = Update(id: RouterId, prefix: Prefix, plen: Byte, seqno: U16, metric: U16)

  // ---------- Messages ----------

  function NhTlv(address: seq<Byte>): (t: seq<Byte>)
    requires |address| == 4
    ensures Solid(t)
  {
    [MESSAGE_NH, 6, 1, 0] + address
  }

  function IdTlv(id: RouterId): (t: seq<Byte>)
    ensures Solid(t)
  {
    [MESSAGE_ROUTER_ID, 10, 0, 0] + id
  }

  function UpdateTlv(ae: Byte, flags: Byte, plen: Byte, omit: Byte, interval: U16, seqno: U16, metric: U16,
      data: seq<Byte>): (t: seq<Byte>)
    requires |data| <= 26
    ensures Solid(t) && |t| == 12 + |data|
  {
    [MESSAGE_UPDATE, 10 + |data|, ae, flags, plen, omit] + Put16(interval) + Put16(seqno) + Put16(metric) + data
  }

  /** The update that `send_wildcard_retraction` sends. */
  function WildcardTlv(seqno: U16): (t: seq<Byte>)
    ensures Solid(t)
  {
    UpdateTlv(0, 0x40, 0, 0, 0xFFFF, seqno, 0xFFFF, [])
  }

  // ---------- Buffer ----------

  /** `flushbuf`; every packet starts from a receiver that knows nothing. */
  function Flush(s: Sender): Sender
  {
    s.(packets := if s.tlvs == [] then s.packets else s.packets + [Concat(s.tlvs)],
       tlvs := [], haveId := false, haveNh := false, havePrefix := false)
  }

  /** `ensure_space`. */
  function EnsureSpace(s: Sender, space: int): Sender
  {
    if (s.bufsize as int) - s.Buffered() < space then Flush(s) else s
  }

  /** `start_message`, the `accumulate_*` calls and `end_message` of one message. */
  function Push(s: Sender, t: seq<Byte>): Sender
  {
    var s1 := EnsureSpace(s, |t|);
    s1.(tlvs := s1.tlvs + [t])
  }

  // ---------- really_send_update ----------

  predicate IsV4(u: Update) { u.plen >= 96 && V4Mapped(u.prefix) }

  /** How many leading octets, at most `n`, two prefixes share. */
  function Common(a: Prefix, b: Prefix, n: nat): (k: nat)
    requires n <= 16
    ensures k <= n && a[..k] == b[..k]
    ensures k < n ==> a[k] != b[k]
  {
    if n == 0 then 0
    else
      var k := Common(a, b, n - 1);
      if k == n - 1 && a[k] == b[k] then
        assert a[..n] == a[..k] + [a[k]] && b[..n] == b[..k] + [b[k]];
        n
      else k
  }

  function Omit(s: Sender, u: Update): nat
    requires u.plen <= 128
  {
    if IsV4(u) || !s.havePrefix then 0 else Common(s.prefix, u.prefix, u.plen / 8)
  }

  /** The update establishes the default prefix for its successors. */
  predicate SetsPrefix(s: Sender, u: Update) { !IsV4(u) && (!s.havePrefix || u.plen >= 48) }

  predicate NewId(s: Sender, u: Update) { !s.haveId || s.id != u.id }

  /** The update itself carries the router-id in the low half of its prefix. */
  predicate IdInPrefix(s: Sender, u: Update) { NewId(s, u) && !IsV4(u) && u.plen == 128 && u.prefix[8..] == u.id }

  function SendNh(s: Sender, u: Update): Sender
    requires IsV4(u) ==> |s.ipv4| == 4
  {
    if IsV4(u) && (!s.haveNh || s.nh != s.ipv4)
    then Push(s, NhTlv(s.ipv4)).(haveNh := true, nh := s.ipv4)
    else s
  }

  function SendId(s: Sender, u: Update): Sender
  {
    if !NewId(s, u) then s
    else (if IdInPrefix(s, u) then s else Push(s, IdTlv(u.id))).(haveId := true, id := u.id)
  }

  /** The message for an IPv4 prefix: never compressed. */
  function V4Message(s: Sender, u: Update, metric: U16, channels: seq<Byte>): (t: seq<Byte>)
    requires 96 <= u.plen <= 128 && |channels| <= 10
    ensures Solid(t) && |t| <= 26
  {
    UpdateTlv(1, 0, u.plen - 96, 0, s.interval, u.seqno, metric, u.prefix[12..12 + PrefixBytes(u.plen - 96)] + channels)
  }

  function FlagsOf(sets: bool, inPrefix: bool): Byte
  {
    (if sets then 0x80 else 0) + (if inPrefix then 0x40 else 0)
  }

  /** The message for an IPv6 prefix, `omit` octets of which the receiver already has. */
  function V6Message(sets: bool, inPrefix: bool, omit: Byte, s: Sender, u: Update, metric: U16,
      channels: seq<Byte>): (t: seq<Byte>)
    requires omit <= PrefixBytes(u.plen) <= 16 && |channels| <= 10
    ensures Solid(t) && |t| <= 38
  {
    UpdateTlv(2, FlagsOf(sets, inPrefix), u.plen, omit, s.interval, u.seqno, metric,
              u.prefix[omit..PrefixBytes(u.plen)] + channels)
  }

  /** The update message; `s` is the sender before the router-id was settled. */
  function MessageFor(s: Sender, u: Update, metric: U16, channels: seq<Byte>): (t: seq<Byte>)
    requires u.plen <= 128 && |channels| <= 10
    ensures Solid(t) && |t| <= 38
  {
    if IsV4(u) then V4Message(s, u, metric, channels)
    else V6Message(SetsPrefix(s, u), IdInPrefix(s, u), Omit(s, u), s, u, metric, channels)
  }

  /** The router-id if need be, and the update message. */
  function SendMessage(s: Sender, u: Update, metric: U16, channels: seq<Byte>): Sender
    requires u.plen <= 128 && |channels| <= 10
  {
    var sent := Push(SendId(s, u), MessageFor(s, u, metric, channels));
    if SetsPrefix(s, u) then sent.(havePrefix := true, prefix := u.prefix) else sent
  }

  predicate Refused(s: Sender, up: bool, filter: U16) { !up || filter >= INFINITY }

  /**
    `really_send_update`: `up` is if_up, `filter` the answer of output_filter, `channels` the
    octets of the channel attribute (none unless diversity by channel is on).
  */
  function SendUpdate(s: Sender, u: Update, up: bool, filter: U16, channels: seq<Byte>): Sender
    requires u.plen <= 128 && |channels| <= 10 && |s.ipv4| in {0, 4}
  {
    if Refused(s, up, filter) then s
    else
      var metric := Min((u.metric as int) + filter, INFINITY);
      var s1 := EnsureSpace(s, 60);
      if IsV4(u) && s1.ipv4 == [] then s1
      else SendMessage(SendNh(s1, u), u, metric, channels)
  }

  /** `send_wildcard_retraction`. */
  function SendWildcard(s: Sender, up: bool, seqno: U16): Sender
  {
    if !up then s else Push(s, WildcardTlv(seqno)).(haveId := false)
  }

  // ---------- Prefix arithmetic ----------

  /** A canonical prefix is zero beyond the octets that are sent. */
  lemma CanonicalTail(p: Prefix, plen: nat)
    requires Canonical(p, plen)
    ensures PrefixBytes(plen) <= 16 && Padded(p[..PrefixBytes(plen)]) == p
  {
    var pb := PrefixBytes(plen);
    if plen < 128 {
      assert MaskPrefix(p, plen)[pb..] == ZEROS[pb..];
      assert p == p[..pb] + p[pb..];
    } else {
      assert p == p[..16];
    }
  }

  /** Only an IPv4 prefix is v4-mapped: shorter prefixes cannot spell out the twelfth octet. */
  lemma MappedIsV4(p: Prefix, plen: nat)
    requires Canonical(p, plen) && V4Mapped(p)
    ensures plen >= 96
  {
    assert p[11] == p[..12][11] == 0xFF;
  }

  // ---------- What the receiver makes of each message ----------

  lemma NhParsed(st: Decoder, address: seq<Byte>, ipv4: bool)
    requires |address| == 4
    ensures ParseTlv(st, NhTlv(address), ipv4) == (st.(haveV4Nh := true, v4Nh := V4PREFIX + address), [])
  {
    var t := NhTlv(address);
    assert t[4..] == address && address[..4] == address;
    assert NetworkPrefix(1, -1, 0, address, ZEROS, 4).prefix == V4PREFIX + address;
  }

  lemma IdParsed(st: Decoder, id: RouterId, ipv4: bool)
    ensures ParseTlv(st, IdTlv(id), ipv4) == (st.(haveId := true, id := id), [])
  {
    assert IdTlv(id)[4..12] == id;
  }

  /** The fixed fields of an update message, read back. */
  lemma UpdateFields(ae: Byte, flags: Byte, plen: Byte, omit: Byte, interval: U16, seqno: U16, metric: U16,
      data: seq<Byte>)
    requires |data| <= 26
    ensures var t := UpdateTlv(ae, flags, plen, omit, interval, seqno, metric, data);
      && t[0] == MESSAGE_UPDATE && t[1] >= 10 && t[2] == ae && t[3] == flags && t[4] == plen && t[5] == omit
      && Get16(t[6..]) == interval && Get16(t[8..]) == seqno && Get16(t[10..]) == metric && t[12..] == data
  {
    var t := UpdateTlv(ae, flags, plen, omit, interval, seqno, metric, data);
    assert t[6..8] == Put16(interval) && t[8..10] == Put16(seqno) && t[10..12] == Put16(metric);
    assert t[6..][0] == t[6..8][0] && t[6..][1] == t[6..8][1];
    assert t[8..][0] == t[8..10][0] && t[8..][1] == t[8..10][1];
    assert t[10..][0] == t[10..12][0] && t[10..][1] == t[10..12][1];
  }

  lemma V6Decompressed(p: Prefix, plen: Byte, omit: Byte, dp: Prefix, channels: seq<Byte>)
    requires Canonical(p, plen) && omit <= plen / 8 && dp[..omit] == p[..omit] && (omit > 0 ==> !V4Mapped(dp))
    ensures PrefixBytes(plen) <= 16 && var data := p[omit..PrefixBytes(plen)] + channels;
      NetworkPrefix(2, plen, omit, data, dp, |data|) == Parsed(PrefixBytes(plen) - omit, p)
  {
    CanonicalTail(p, plen);
    var pb := PrefixBytes(plen);
    var data := p[omit..pb] + channels;
    assert pb > omit ==> data[..pb - omit] == p[omit..pb];
    assert p[..omit] + p[omit..pb] == p[..pb];
    assert pb == omit ==> p[omit..pb] == [];
  }

  lemma V4Decompressed(p: Prefix, plen: Byte, dp: Prefix, channels: seq<Byte>)
    requires Canonical(p, plen) && plen >= 96 && V4Mapped(p)
    ensures PrefixBytes(plen - 96) <= 4 && var data := p[12..12 + PrefixBytes(plen - 96)] + channels;
      NetworkPrefix(1, plen - 96, 0, data, dp, |data|) == Parsed(PrefixBytes(plen - 96), p)
  {
    CanonicalTail(p, plen);
    var pb := PrefixBytes(plen - 96);
    assert PrefixBytes(plen) == 12 + pb;
    var data := p[12..12 + pb] + channels;
    assert pb > 0 ==> data[..pb] == p[12..12 + pb];
    assert V4PREFIX + p[12..12 + pb] == p[..12 + pb];
    assert pb == 0 ==> p[12..12 + pb] == [];
  }
}

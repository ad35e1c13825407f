/**
  What any TLV means to the receiver (parse_packet in quagga-srx/babeld/message.c), octet by octet:
  which routes it announces, and what it leaves for the TLVs that follow.  The prefix that
  `network_prefix` makes of the octets is described by `PrefixBits`.
*/
module UpdateMeaning {
  import opened Octets
  import opened UpdateDecoder

  function Number(hi: Byte, lo: Byte): U16 { (hi as int) * 0x100 + lo }

  /** The default for a family, known or not. */
  function Default(st: Decoder, ae: Byte): Prefix { if ae == 1 then st.v4 else st.v6 }

  /** What the octets from the thirteenth on say together with that default. */
  function Written(st: Decoder, t: seq<Byte>): PrefixResult
    requires Framed(t) && t[1] >= 10
  {
    NetworkPrefix(t[2], t[4], t[5], t[12..], Default(st, t[2]), |t| - 12)
  }

  /** The prefix can be made out: nothing is left out, or a default is set (by flags 1 the one of IPv4). */
  predicate Readable(st: Decoder, t: seq<Byte>)
    requires Framed(t) && t[1] >= 10
  {
    && Written(st, t).Parsed? && Written(st, t).used >= 0
    && (t[5] > 0 ==> (t[3] == 1 && st.haveV4) || (t[3] != 1 && st.haveV6))
  }

  /** The router-id in the low half of a prefix; of an IPv4 prefix only four octets count. */
  function IdOf(ae: Byte, prefix: Prefix): RouterId
  {
    if ae == 1 then [0, 0, 0, 0, prefix[12], prefix[13], prefix[14], prefix[15]] else prefix[8..]
  }

  predicate SaysPrefix(t: seq<Byte>)
    requires |t| > 3
  {
    t[3] >= 0x80
  }

  predicate SaysId(t: seq<Byte>)
    requires |t| > 3
  {
    0x40 <= t[3] < 0x80 || t[3] >= 0xC0
  }

  /** Whether the router-id is known once the update has been looked at, and which one it is. */
  function KnowsId(st: Decoder, t: seq<Byte>): bool
    requires Framed(t) && t[1] >= 10
  {
    st.haveId || SaysId(t)
  }

  function IdAfter(st: Decoder, t: seq<Byte>): RouterId
    requires Framed(t) && t[1] >= 10 && Readable(st, t)
  {
    if SaysId(t) then IdOf(t[2], Written(st, t).prefix) else st.id
  }

  lemma FlagBits(b: Byte)
    ensures Bit80(b) <==> b >= 0x80
    ensures Bit40(b) <==> 0x40 <= b < 0x80 || b >= 0xC0
  {
  }

  lemma IdRead(ae: Byte, prefix: Prefix)
    ensures IdOf(ae, prefix) == if ae == 1 then [0, 0, 0, 0] + prefix[12..] else prefix[8..]
  {
  }

  lemma PrefixRead(st: Decoder, t: seq<Byte>)
    requires Framed(t) && t[1] >= 10
    ensures if Readable(st, t) then UpdatePrefix(st, t) == Written(st, t)
            else UpdatePrefix(st, t).BadPrefix? || UpdatePrefix(st, t).used < 0
  {
  }

  /** The state that an accepted update leaves. */
  lemma Remembered(st: Decoder, ae: Byte, flags: Byte, p: Prefix)
    ensures var st' := Remember(st, ae, flags, p);
      && (st'.haveId, st'.id) ==
           (if 0x40 <= flags < 0x80 || flags >= 0xC0 then (true, IdOf(ae, p)) else (st.haveId, st.id))
      && (st'.haveV4, st'.v4) == (if flags >= 0x80 && ae == 1 then (true, p) else (st.haveV4, st.v4))
      && (st'.haveV6, st'.v6) == (if flags >= 0x80 && ae != 1 then (true, p) else (st.haveV6, st.v6))
      && (st'.haveV4Nh, st'.v4Nh, st'.haveV6Nh, st'.v6Nh) == (st.haveV4Nh, st.v4Nh, st.haveV6Nh, st.v6Nh)
  {
    FlagBits(flags);
    IdRemembered(RememberPrefix(st, ae, flags, p), ae, flags, p);
  }

  lemma IdRemembered(st: Decoder, ae: Byte, flags: Byte, p: Prefix)
    ensures RememberId(st, ae, flags, p) ==
      if 0x40 <= flags < 0x80 || flags >= 0xC0 then st.(haveId := true, id := IdOf(ae, p)) else st
  {
    FlagBits(flags);
    IdRead(ae, p);
  }

  lemma NumbersRead(t: seq<Byte>)
    requires |t| >= 12
    ensures Get16(t[6..]) == Number(t[6], t[7]) && Get16(t[8..]) == Number(t[8], t[9])
    ensures Get16(t[10..]) == Number(t[10], t[11])
  {
  }

  /** The route that the octets of an update spell out. */
  function Spelled(st: Decoder, t: seq<Byte>): Event
    requires Framed(t) && t[1] >= 10 && Readable(st, t)
  {
    Route(IdAfter(st, t), Written(st, t).prefix, ((t[4] as int) + if t[2] == 1 then 96 else 0) % 0x100,
          Number(t[8], t[9]), Number(t[10], t[11]), Number(t[6], t[7]),
          if t[2] == 1 then Via(st.v4Nh) else if st.haveV6Nh then Via(st.v6Nh) else Neighbour)
  }

  lemma AnnouncementSpelled(st: Decoder, t: seq<Byte>)
    requires Framed(t) && t[1] >= 10 && Readable(st, t)
    ensures var p := Written(st, t).prefix; Announcement(Remember(st, t[2], t[3], p), t, p) == Spelled(st, t)
  {
    Remembered(st, t[2], t[3], Written(st, t).prefix);
    NumbersRead(t);
  }

  /**
    An update of ten octets or more announces the route that its octets spell out, exactly when its
    prefix can be made out, it is not a wildcard, its router-id is known, and for IPv4 there are a next
    hop and an address; a wildcard with infinite metric retracts everything.
  */
  lemma UpdateAnnounces(st: Decoder, t: seq<Byte>, ipv4: bool)
    requires Framed(t) && t[0] == 8 && t[1] >= 10
    ensures ParseTlv(st, t, ipv4).1 ==
      if !Readable(st, t) then []
      else if t[2] == 0 then if t[10] == t[11] == 0xFF then [RetractAll] else []
      else if !KnowsId(st, t) || (t[2] == 1 && !(st.haveV4Nh && ipv4)) then []
      else [Spelled(st, t)]
  {
    PrefixRead(st, t);
    if Readable(st, t) {
      Remembered(st, t[2], t[3], Written(st, t).prefix);
      AnnouncementSpelled(st, t);
      NumbersRead(t);
    }
  }

  /** An accepted update with flag 0x80 sets the default of its family, with flag 0x40 the router-id; nothing else. */
  lemma UpdateRemembers(st: Decoder, t: seq<Byte>, ipv4: bool)
    requires Framed(t) && t[0] == 8 && t[1] >= 10 && Readable(st, t)
    ensures var st', p := ParseTlv(st, t, ipv4).0, Written(st, t).prefix;
      && st'.haveId == KnowsId(st, t) && st'.id == IdAfter(st, t)
      && (st'.haveV4, st'.v4) == (if SaysPrefix(t) && t[2] == 1 then (true, p) else (st.haveV4, st.v4))
      && (st'.haveV6, st'.v6) == (if SaysPrefix(t) && t[2] != 1 then (true, p) else (st.haveV6, st.v6))
      && (st'.haveV4Nh, st'.v4Nh, st'.haveV6Nh, st'.v6Nh) == (st.haveV4Nh, st.v4Nh, st.haveV6Nh, st.v6Nh)
  {
    PrefixRead(st, t);
    Remembered(st, t[2], t[3], Written(st, t).prefix);
    assert ParseTlv(st, t, ipv4).0 == Remember(st, t[2], t[3], Written(st, t).prefix);
  }

  /** One that cannot be made out, or is too short, forgets both defaults if it would have set one. */
  lemma UpdateForgets(st: Decoder, t: seq<Byte>, ipv4: bool)
    requires Framed(t) && t[0] == 8 && (t[1] < 10 || !Readable(st, t))
    ensures ParseTlv(st, t, ipv4) ==
      (if t[1] < 2 || SaysPrefix(t) then st.(haveV4 := false, haveV6 := false) else st, [])
  {
    if t[1] >= 2 { FlagBits(t[3]); }
    if t[1] >= 10 { PrefixRead(st, t); }
  }

  /** A router-id, or none if the message is too short. */
  lemma RouterIdMeans(st: Decoder, t: seq<Byte>, ipv4: bool)
    requires Framed(t) && t[0] == 6
    ensures ParseTlv(st, t, ipv4) ==
      (if t[1] < 10 then st.(haveId := false)
       else st.(haveId := true, id := [t[4], t[5], t[6], t[7], t[8], t[9], t[10], t[11]]), [])
  {
    if t[1] >= 10 { assert t[4..12] == [t[4], t[5], t[6], t[7], t[8], t[9], t[10], t[11]]; }
  }

  /** The address in a next-hop message, whole. */
  function NhAddress(t: seq<Byte>): PrefixResult
    requires Framed(t) && t[1] >= 2
  {
    NetworkPrefix(t[2], -1, 0, t[4..], ZEROS, |t| - 4)
  }

  /** A next hop for its family (all but IPv4 share one), or none at all if it cannot be made out. */
  lemma NextHopMeans(st: Decoder, t: seq<Byte>, ipv4: bool)
    requires Framed(t) && t[0] == 7
    ensures ParseTlv(st, t, ipv4) ==
      (if t[1] < 2 || NhAddress(t).BadPrefix? || NhAddress(t).used < 0 then st.(haveV4Nh := false, haveV6Nh := false)
       else if t[2] == 1 then st.(haveV4Nh := true, v4Nh := NhAddress(t).prefix)
       else st.(haveV6Nh := true, v6Nh := NhAddress(t).prefix), [])
  {
  }

  /** Only neighbours on the link are listened to: addresses in fe80::/64. */
  lemma LinkLocalOctets(a: Prefix)
    ensures LinkLocal(a) <==> a[0] == 0xFE && a[1] == 0x80 && forall k | 2 <= k < 8 :: a[k] == 0
  {
    assert forall k | 0 <= k < 8 :: a[..8][k] == a[k];
  }

  /** Octets 2 and 3 announce the length of the body; what has not arrived is not read. */
  lemma BodyAnnounced(packet: seq<Byte>)
    requires |packet| >= 4
    ensures var n: int := Number(packet[2], packet[3]);
      BodyLength(packet) == if n + 4 <= |packet| then n else |packet| - 4
  {
  }

  /** No other message says anything about routes. */
  lemma OthersMeanNothing(st: Decoder, t: seq<Byte>, ipv4: bool)
    requires Framed(t) && t[0] !in {6, 7, 8}
    ensures ParseTlv(st, t, ipv4) == (st, [])
  {
  }
}

/**
  Where the receiver of Babel's updates (parse_packet in quagga-srx/babeld/message.c)
  depends on what it should not depend on: octets behind the packet, because the
  bounds check forgets two of them, and default prefixes looked up under the wrong
  key, because the test reads the flags instead of the address encoding.  For both:
  an input that shows it, and exactly when it does not matter.
*/
module DecoderLimits {
  import opened Octets
  import opened UpdateDecoder

  // ---------- Octets behind the body ----------

  /**
    Every TLV that is not padding has its length octet in the body, and either ends in the
    body or is so long that the loop gives up there.
  */
  predicate Inside(rest: seq<Byte>)
    decreases |rest|
  {
    if rest == [] then true
    else if rest[0] == MESSAGE_PAD1 then Inside(rest[1..])
    else if |rest| == 1 then false
    else if rest[1] > |rest| then true
    else rest[1] as int + 2 <= |rest| && Inside(rest[rest[1] as int + 2..])
  }

  lemma {:induction false} InsideDecides(rest: seq<Byte>, b: Beyond, c: Beyond)
    requires Inside(rest)
    ensures Frames(rest, b) == Frames(rest, c)
    decreases |rest|
  {
    if rest != [] {
      if rest[0] == MESSAGE_PAD1 {
        InsideDecides(rest[1..], b, c);
      } else {
        assert (rest + b)[1] == rest[1] == (rest + c)[1];
        if rest[1] <= |rest| {
          var n := rest[1] as int + 2;
          assert (rest + b)[..n] == rest[..n] == (rest + c)[..n];
          InsideDecides(rest[n..], b, c);
        }
      }
    }
  }

  /** A TLV that reaches past the end shows what is there. */
  lemma OverhangShows(rest: seq<Byte>)
    requires |rest| > 1 && rest[0] != MESSAGE_PAD1 && rest[1] <= |rest| < rest[1] as int + 2
    ensures Frames(rest, [0, 0]) != Frames(rest, [1, 1])
  {
    var s, t := FirstTlv(rest, [0, 0]), FirstTlv(rest, [1, 1]);
    assert (rest + [0, 0])[1] == rest[1] == (rest + [1, 1])[1];
    assert s[|rest|] == 0 && t[|rest|] == 1;
    assert Frames(rest, [0, 0])[0] == s && Frames(rest, [1, 1])[0] == t;
  }

  /** A body that ends after the type of a TLV takes its length from behind. */
  lemma MissingLengthShows(rest: seq<Byte>)
    requires |rest| == 1 && rest[0] != MESSAGE_PAD1
    ensures Frames(rest, [0, 0]) != Frames(rest, [2, 0])
  {
    assert (rest + [0, 0])[1] == 0 && (rest + [2, 0])[1] == 2;
    assert Frames(rest, [2, 0]) == [] && |Frames(rest, [0, 0])| > 0;
  }

  lemma FramesTail(rest: seq<Byte>, b: Beyond)
    requires |rest| > 1 && rest[0] != MESSAGE_PAD1 && rest[1] as int + 2 <= |rest|
    ensures var n := rest[1] as int + 2; Frames(rest, b) == [rest[..n]] + Frames(rest[n..], b)
  {
    var n := rest[1] as int + 2;
    assert (rest + b)[1] == rest[1] && (rest + b)[..n] == rest[..n];
  }

  lemma {:induction false} OutsideShows(rest: seq<Byte>) returns (b: Beyond, c: Beyond)
    requires !Inside(rest)
    ensures Frames(rest, b) != Frames(rest, c)
    decreases |rest|
  {
    if rest[0] == MESSAGE_PAD1 {
      b, c := OutsideShows(rest[1..]);
    } else if |rest| == 1 {
      MissingLengthShows(rest);
      b, c := [0, 0], [2, 0];
    } else if rest[1] as int + 2 > |rest| {
      OverhangShows(rest);
      b, c := [0, 0], [1, 1];
    } else {
      var n := rest[1] as int + 2;
      b, c := OutsideShows(rest[n..]);
      FramesTail(rest, b);
      FramesTail(rest, c);
      assert Frames(rest, b)[1..] == Frames(rest[n..], b) && Frames(rest, c)[1..] == Frames(rest[n..], c);
    }
  }

  /** The TLVs found in a body are independent of what follows it in memory exactly when none of them reaches there. */
  lemma FramesInside(body: seq<Byte>)
    ensures Inside(body) <==> forall b: Beyond, c: Beyond :: Frames(body, b) == Frames(body, c)
  {
    if Inside(body) {
      forall b: Beyond, c: Beyond ensures Frames(body, b) == Frames(body, c) { InsideDecides(body, b, c); }
    } else {
      var b, c := OutsideShows(body);
    }
  }

  /** Whatever a sender puts together from whole messages is such a body. */
  lemma {:induction false} MessagesInside(ts: seq<seq<Byte>>)
    requires forall t <- ts :: Solid(t)
    ensures Inside(Concat(ts))
  {
    forall b: Beyond, c: Beyond ensures Frames(Concat(ts), b) == Frames(Concat(ts), c) {
      FramesConcat(ts, [], b);
      FramesConcat(ts, [], c);
      assert Concat(ts) + [] == Concat(ts);
    }
    FramesInside(Concat(ts));
  }

  const ID: RouterId := [1, 2, 3, 4, 5, 6, 7, 8]
  const ID_MESSAGE: seq<Byte> := [6, 10, 0, 0, 1, 2, 3, 4, 5, 6, 7, 8]
  const CUT_UPDATE: seq<Byte> := [8, 12, 2, 0, 16, 0, 0, 0, 0, 0, 0, 0]

  lemma CutUpdateFrames(beyond: Beyond)
    ensures Frames(ID_MESSAGE + CUT_UPDATE, beyond) == [ID_MESSAGE, CUT_UPDATE + beyond]
  {
    FramesCons(ID_MESSAGE, CUT_UPDATE, beyond);
    assert (CUT_UPDATE + beyond)[1] == 12;
    assert FirstTlv(CUT_UPDATE, beyond) == CUT_UPDATE + beyond;
    assert From(CUT_UPDATE, 14) == [];
  }

  lemma NothingRemembered(st: Decoder, ae: Byte, prefix: Prefix)
    ensures Remember(st, ae, 0, prefix) == st
  {
  }

  lemma CutUpdateParsed(st: Decoder, beyond: Beyond)
    requires st.haveId && !st.haveV6Nh
    ensures ParseUpdate(st, CUT_UPDATE + beyond, true).1
         == [Route(st.id, beyond + [0, 0, 0, 0, 0, 0, 0, 0, 0, 0, 0, 0, 0, 0], 16, 0, 0, 0, Neighbour)]
  {
    var t := CUT_UPDATE + beyond;
    var prefix: Prefix := beyond + [0, 0, 0, 0, 0, 0, 0, 0, 0, 0, 0, 0, 0, 0];
    assert t[12..] == beyond;
    assert beyond[..2] == beyond && st.v6[..0] + beyond == beyond;
    assert Padded(beyond) == prefix;
    assert MaskPrefix(prefix, 16) == prefix;
    assert UpdatePrefix(st, t) == Parsed(2, prefix);
    NothingRemembered(st, 2, prefix);
    UpdateTaken(st, t, Parsed(2, prefix), st, 16, Neighbour);
  }

  /** A router-id and an update cut off by two octets: a route is announced to whatever two octets follow the packet. */
  lemma OverreadAnnounced(m: Memory)
    ensures !Inside(ID_MESSAGE + CUT_UPDATE)
    ensures Decode(ID_MESSAGE + CUT_UPDATE, m, true)
         == [Route(ID, m.beyond + [0, 0, 0, 0, 0, 0, 0, 0, 0, 0, 0, 0, 0, 0], 16, 0, 0, 0, Neighbour)]
  {
    var body := ID_MESSAGE + CUT_UPDATE;
    assert body[12..] == CUT_UPDATE && !Inside(CUT_UPDATE);
    CutUpdateFrames(m.beyond);
    TwoMessages(TlvParser(true), m.Start(), ID_MESSAGE, CUT_UPDATE + m.beyond);
    IdMessageParsed(m.Start());
    CutUpdateParsed(m.Start().(haveId := true, id := ID), m.beyond);
  }

  lemma TwoMessages(p: Parser, start: Decoder, s: seq<Byte>, t: seq<Byte>)
    ensures EventsOf(p, start, [s, t]) == p(start, s).1 + p(p(start, s).0, t).1
  {
    assert [s, t][..1] == [s] && [s][..0] == [];
    assert StateAfter(p, start, [s]) == p(StateAfter(p, start, []), s).0 == p(start, s).0;
    assert EventsOf(p, start, [s]) == EventsOf(p, start, []) + p(start, s).1 == p(start, s).1;
  }

  lemma IdMessageParsed(st: Decoder)
    ensures ParseTlv(st, ID_MESSAGE, true) == (st.(haveId := true, id := ID), [])
  {
    assert ID_MESSAGE[4..12] == ID;
  }

  // ---------- The default prefix ----------

  /** The update as it would be treated if the lookup went by the address encoding. */
  function Intended(st: Decoder, t: seq<Byte>, ipv4: bool): (Decoder, seq<Event>)
    requires Framed(t) && t[1] >= 10
  {
    UpdateWith(st, t, PrefixIf(st, t, KnownByEncoding(st, t)), ipv4)
  }

  /**
    The two lookups give the same prefix exactly when nothing is omitted, or both find a
    default or both find none, or the prefix would be refused anyway.
  */
  lemma LookupsAgree(st: Decoder, t: seq<Byte>)
    requires Framed(t) && t[1] >= 10
    ensures UpdatePrefix(st, t) == PrefixIf(st, t, KnownByEncoding(st, t))
       <==> t[5] == 0 || KnownByFlags(st, t) == KnownByEncoding(st, t) || RawPrefix(st, t).BadPrefix?
  {
  }

  /**
    The two keys differ on IPv4 without flags 1 and on flags 1 without IPv4, when one default is known
    and the other is not.
  */
  lemma KeysDiffer(st: Decoder, t: seq<Byte>)
    requires Framed(t) && t[1] >= 10
    ensures KnownByFlags(st, t) != KnownByEncoding(st, t) <==> st.haveV4 != st.haveV6 && (t[2] == 1) != (t[3] == 1)
  {
  }

  const V4_UPDATE: seq<Byte> := [8, 11, 1, 0, 24, 2, 0, 0, 0, 0, 0, 0, 2]

  lemma V4UpdateRaw(st: Decoder, x: Byte, y: Byte)
    requires st.v4 == V4PREFIX + [x, y, 0, 0]
    ensures RawPrefix(st, V4_UPDATE) == Parsed(1, V4PREFIX + [x, y, 2, 0])
  {
    var prefix: Prefix := V4PREFIX + [x, y, 2, 0];
    assert V4_UPDATE[12..] == [2] && [2][..1] == [2];
    assert st.v4[..14] + [2] == V4PREFIX + [x, y, 2];
    assert Padded(V4PREFIX + [x, y, 2]) == prefix;
    assert MaskPrefix(prefix, 120) == prefix;
    assert V4Mapped(st.v4);
  }

  lemma V4UpdateTaken(st: Decoder, x: Byte, y: Byte)
    requires st.haveId && st.haveV4Nh && st.v4 == V4PREFIX + [x, y, 0, 0]
    ensures UpdateWith(st, V4_UPDATE, RawPrefix(st, V4_UPDATE), true)
         == (st, [Route(st.id, V4PREFIX + [x, y, 2, 0], 120, 0, 0, 0, Via(st.v4Nh))])
    ensures UpdateWith(st, V4_UPDATE, BadPrefix, true) == (st, [])
  {
    V4UpdateRaw(st, x, y);
    NothingRemembered(st, 1, V4PREFIX + [x, y, 2, 0]);
    UpdateTaken(st, V4_UPDATE, RawPrefix(st, V4_UPDATE), st, 120, Via(st.v4Nh));
  }

  /** A legal compressed IPv4 update is dropped although its default prefix is known. */
  lemma CompressedV4Dropped(st: Decoder)
    requires st.haveId && st.haveV4Nh && st.haveV4 && !st.haveV6 && st.v4 == V4PREFIX + [10, 1, 0, 0]
    ensures ParseUpdate(st, V4_UPDATE, true) == (st, [])
    ensures Intended(st, V4_UPDATE, true).1
         == [Route(st.id, V4PREFIX + [10, 1, 2, 0], 120, 0, 0, 0, Via(st.v4Nh))]
  {
    V4UpdateTaken(st, 10, 1);
  }

  /** And one is accepted although no IPv4 default is known: its prefix comes from an array that was never written. */
  lemma UnsetPrefixAnnounced(st: Decoder, x: Byte, y: Byte)
    requires st.haveId && st.haveV4Nh && !st.haveV4 && st.haveV6 && st.v4 == V4PREFIX + [x, y, 0, 0]
    ensures ParseUpdate(st, V4_UPDATE, true).1 == [Route(st.id, V4PREFIX + [x, y, 2, 0], 120, 0, 0, 0, Via(st.v4Nh))]
    ensures Intended(st, V4_UPDATE, true) == (st, [])
  {
    V4UpdateTaken(st, x, y);
  }

  // ---------- Uninitialised locals ----------

  /** A value that is had on both sides is the same. */
  predicate Same(have: bool, have': bool, x: seq<Byte>, x': seq<Byte>) { have == have' && (have ==> x == x') }

  /** The states agree on everything that they claim to have. */
  predicate Alike(st: Decoder, st': Decoder)
  {
    && Same(st.haveId, st'.haveId, st.id, st'.id)
    && Same(st.haveV4, st'.haveV4, st.v4, st'.v4)
    && Same(st.haveV6, st'.haveV6, st.v6, st'.v6)
    && Same(st.haveV4Nh, st'.haveV4Nh, st.v4Nh, st'.v4Nh)
    && Same(st.haveV6Nh, st'.haveV6Nh, st.v6Nh, st'.v6Nh)
  }

  /** An update that the lookup by flags lets through to a default prefix that is not known. */
  predicate Confused(st: Decoder, t: seq<Byte>)
  {
    && Framed(t) && t[0] == MESSAGE_UPDATE && t[1] >= 10
    && t[5] != 0 && KnownByFlags(st, t) && !KnownByEncoding(st, t)
  }

  lemma SamePrefix(st: Decoder, st': Decoder, t: seq<Byte>)
    requires Framed(t) && t[1] >= 10 && t[0] == MESSAGE_UPDATE && Alike(st, st') && !Confused(st, t)
    ensures UpdatePrefix(st, t) == UpdatePrefix(st', t)
  {
  }

  lemma RememberAlike(st: Decoder, st': Decoder, ae: Byte, flags: Byte, prefix: Prefix)
    requires Alike(st, st')
    ensures Alike(Remember(st, ae, flags, prefix), Remember(st', ae, flags, prefix))
  {
    RememberPrefixAlike(st, st', ae, flags, prefix);
    RememberIdAlike(RememberPrefix(st, ae, flags, prefix), RememberPrefix(st', ae, flags, prefix), ae, flags, prefix);
  }

  lemma RememberPrefixAlike(st: Decoder, st': Decoder, ae: Byte, flags: Byte, prefix: Prefix)
    requires Alike(st, st')
    ensures Alike(RememberPrefix(st, ae, flags, prefix), RememberPrefix(st', ae, flags, prefix))
  {
  }

  lemma RememberIdAlike(st: Decoder, st': Decoder, ae: Byte, flags: Byte, prefix: Prefix)
    requires Alike(st, st')
    ensures Alike(RememberId(st, ae, flags, prefix), RememberId(st', ae, flags, prefix))
  {
  }

  lemma AnnouncementAlike(st: Decoder, st': Decoder, t: seq<Byte>, prefix: Prefix)
    requires Framed(t) && t[1] >= 10 && Alike(st, st') && st.haveId && (t[2] == 1 ==> st.haveV4Nh)
    ensures Announcement(st, t, prefix) == Announcement(st', t, prefix)
  {
  }

  lemma UpdateWithAlike(st: Decoder, st': Decoder, t: seq<Byte>, r: PrefixResult, ipv4: bool)
    requires Framed(t) && t[1] >= 10 && Alike(st, st')
    ensures Alike(UpdateWith(st, t, r, ipv4).0, UpdateWith(st', t, r, ipv4).0)
    ensures UpdateWith(st, t, r, ipv4).1 == UpdateWith(st', t, r, ipv4).1
  {
    if r.Parsed? {
      var st1, st1' := Remember(st, t[2], t[3], r.prefix), Remember(st', t[2], t[3], r.prefix);
      RememberAlike(st, st', t[2], t[3], r.prefix);
      if st1.haveId && (t[2] == 1 ==> st1.haveV4Nh) { AnnouncementAlike(st1, st1', t, r.prefix); }
    }
  }

  lemma ShortUpdateAlike(st: Decoder, st': Decoder, t: seq<Byte>, ipv4: bool)
    requires Framed(t) && t[1] < 10 && Alike(st, st')
    ensures Alike(ParseUpdate(st, t, ipv4).0, ParseUpdate(st', t, ipv4).0)
    ensures ParseUpdate(st, t, ipv4).1 == ParseUpdate(st', t, ipv4).1
  {
  }

  lemma OtherTlvAlike(st: Decoder, st': Decoder, t: seq<Byte>, ipv4: bool)
    requires Framed(t) && t[0] != MESSAGE_UPDATE && Alike(st, st')
    ensures Alike(ParseTlv(st, t, ipv4).0, ParseTlv(st', t, ipv4).0)
    ensures ParseTlv(st, t, ipv4).1 == ParseTlv(st', t, ipv4).1
  {
    if t[0] == MESSAGE_ROUTER_ID {
      assert Alike(ParseRouterId(st, t), ParseRouterId(st', t));
    } else if t[0] == MESSAGE_NH {
      NhAlike(st, st', t);
    }
  }

  lemma NhAlike(st: Decoder, st': Decoder, t: seq<Byte>)
    requires Framed(t) && Alike(st, st')
    ensures Alike(ParseNh(st, t), ParseNh(st', t))
  {
    if t[1] >= 2 {
      var r := NetworkPrefix(t[2], -1, 0, t[4..], ZEROS, |t| - 4);
      KeepNhAlike(st, st', t[2], r);
      assert ParseNh(st, t) == KeepNh(st, t[2], r) && ParseNh(st', t) == KeepNh(st', t[2], r);
    }
  }

  lemma KeepNhAlike(st: Decoder, st': Decoder, ae: Byte, r: PrefixResult)
    requires Alike(st, st')
    ensures Alike(KeepNh(st, ae, r), KeepNh(st', ae, r))
  {
    if r.BadPrefix? || r.used < 0 {
    } else if ae == 1 {
      assert Same(true, true, r.prefix, r.prefix);
    } else {
      assert Same(true, true, r.prefix, r.prefix);
    }
  }

  /** No other TLV, and no other update, depends on what was never set. */
  lemma TlvIgnoresJunk(st: Decoder, st': Decoder, t: seq<Byte>, ipv4: bool)
    requires Framed(t) && Alike(st, st') && !Confused(st, t)
    ensures Alike(ParseTlv(st, t, ipv4).0, ParseTlv(st', t, ipv4).0)
    ensures ParseTlv(st, t, ipv4).1 == ParseTlv(st', t, ipv4).1
  {
    if t[0] != MESSAGE_UPDATE {
      OtherTlvAlike(st, st', t, ipv4);
    } else if t[1] < 10 {
      ShortUpdateAlike(st, st', t, ipv4);
    } else {
      SamePrefix(st, st', t);
      UpdateWithAlike(st, st', t, UpdatePrefix(st, t), ipv4);
    }
  }

  /** Whole messages, none of which is confused when its turn comes. */
  ghost predicate Clear(start: Decoder, ts: seq<seq<Byte>>, ipv4: bool)
  {
    forall k | 0 <= k < |ts| :: Framed(ts[k]) && !Confused(StateAfter(TlvParser(ipv4), start, ts[..k]), ts[k])
  }

  lemma ClearSnoc(start: Decoder, ts: seq<seq<Byte>>, t: seq<Byte>, ipv4: bool)
    requires Clear(start, ts, ipv4) && Framed(t) && !Confused(StateAfter(TlvParser(ipv4), start, ts), t)
    ensures Clear(start, ts + [t], ipv4)
  {
    var us := ts + [t];
    forall k | 0 <= k < |us| ensures Framed(us[k]) && !Confused(StateAfter(TlvParser(ipv4), start, us[..k]), us[k]) {
      assert us[..k] == ts[..k];
      assert ts[..|ts|] == ts;
    }
  }

  lemma ClearPrefix(start: Decoder, ts: seq<seq<Byte>>, n: nat, ipv4: bool)
    requires Clear(start, ts, ipv4) && |ts| == n + 1
    ensures Clear(start, ts[..n], ipv4) && Framed(ts[n])
    ensures !Confused(StateAfter(TlvParser(ipv4), start, ts[..n]), ts[n])
  {
    forall k | 0 <= k < n ensures ts[..n][..k] == ts[..k] { }
  }

  /** Such messages are understood alike whatever the uninitialised locals hold. */
  lemma {:induction false} JunkIgnored(start: Decoder, start': Decoder, ts: seq<seq<Byte>>, ipv4: bool)
    requires Alike(start, start') && Clear(start, ts, ipv4)
    ensures Alike(StateAfter(TlvParser(ipv4), start, ts), StateAfter(TlvParser(ipv4), start', ts))
    ensures EventsOf(TlvParser(ipv4), start, ts) == EventsOf(TlvParser(ipv4), start', ts)
  {
    if ts != [] {
      var n := |ts| - 1;
      ClearPrefix(start, ts, n, ipv4);
      JunkIgnored(start, start', ts[..n], ipv4);
      var p := TlvParser(ipv4);
      TlvIgnoresJunk(StateAfter(p, start, ts[..n]), StateAfter(p, start', ts[..n]), ts[n], ipv4);
    }
  }

  /** A packet body that says the same whatever the receiver's memory holds. */
  ghost predicate Certain(body: seq<Byte>, ipv4: bool)
  {
    forall m: Memory :: Decode(body, m, ipv4) == Decode(body, CLEAR, ipv4)
  }

  lemma ClearIsCertain(ts: seq<seq<Byte>>, ipv4: bool)
    requires (forall t <- ts :: Solid(t)) && Clear(FRESH, ts, ipv4)
    ensures Certain(Concat(ts), ipv4)
  {
    forall m: Memory ensures Decode(Concat(ts), m, ipv4) == Decode(Concat(ts), CLEAR, ipv4) {
      DecodeConcat(ts, m, ipv4);
      DecodeConcat(ts, CLEAR, ipv4);
      JunkIgnored(FRESH, m.Start(), ts, ipv4);
    }
  }
}

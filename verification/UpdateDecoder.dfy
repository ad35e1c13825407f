/**
  The receiving side of Babel's update messages (quagga-srx/babeld/message.c and
  util.c): prefix decompression and the state a receiver carries from one TLV
  of a packet to the next.
*/
module UpdateDecoder {
  import opened Octets
  import opened Lists

  const MESSAGE_PAD1 := 0
  const MESSAGE_ROUTER_ID := 6
  const MESSAGE_NH := 7
  const MESSAGE_UPDATE := 8

  // ---------- Addresses ----------

  const ZEROS: Prefix := [0, 0, 0, 0, 0, 0, 0, 0, 0, 0, 0, 0, 0, 0, 0, 0]
  const V4PREFIX: seq<Byte> := [0, 0, 0, 0, 0, 0, 0, 0, 0, 0, 0xFF, 0xFF]

  /** `v4mapped`. */
  predicate V4Mapped(p: Prefix) { p[..12] == V4PREFIX }

  function Pow2(n: nat): (r: int)
    requires n <= 8
    ensures 1 <= r <= 256
  {
    [1, 2, 4, 8, 16, 32, 64, 128, 256][n]
  }

  /** The `b` most significant bits of an octet. */
  function MaskByte(x: Byte, b: nat): Byte
    requires b <= 8
  {
    x - x % Pow2(8 - b)
  }

  /** `mask_prefix`. */
  function MaskPrefix(p: Prefix, plen: nat): Prefix
  {
    if plen >= 128 then p
    else
      var full := plen / 8;
      if plen % 8 == 0 then p[..full] + ZEROS[full..]
      else p[..full] + [MaskByte(p[full], plen % 8)] + ZEROS[full + 1..]
  }

  predicate Canonical(p: Prefix, plen: nat) { plen <= 128 && MaskPrefix(p, plen) == p }

  /** Octets that hold `plen` bits. */
  function PrefixBytes(plen: nat): nat { (plen + 7) / 8 }

  datatype PrefixResult = BadPrefix | Parsed(used: int, prefix: Prefix)

  /**
    `network_prefix`.  `data` are the octets that follow in the TLV, `len` how many of them
    the TLV claims; `plen < 0` asks for a full address.
  */
  function NetworkPrefix(ae: Byte, plen: int, omitted: Byte, data: seq<Byte>, dp: Prefix, len: nat): PrefixResult
    requires plen < 0x100 && len <= |data|
  {
    var pb: int := if plen >= 0 then (plen + 7) / 8 else if ae == 1 then 4 else 16;
    if pb > 16 then BadPrefix
    else if ae == 0 then Parsed(0, MaskPrefix(ZEROS, if plen < 0 then 128 else plen))
    else if ae == 1 then
      if omitted > 4 || pb > 4 || (pb > omitted && len < pb - omitted) || (omitted > 0 && !V4Mapped(dp)) then BadPrefix
      else
        var head := if omitted > 0 then dp[..12 + omitted] else V4PREFIX;
        var tail := if pb > omitted then data[..pb - omitted] else [];
        Parsed(pb - omitted, MaskPrefix(Padded(head + tail), if plen < 0 then 128 else plen + 96))
    else if ae == 2 then
      if omitted > 16 || (pb > omitted && len < pb - omitted) || (omitted > 0 && V4Mapped(dp)) then BadPrefix
      else
        var tail := if pb > omitted then data[..pb - omitted] else [];
        Parsed(pb - omitted, MaskPrefix(Padded(dp[..omitted] + tail), if plen < 0 then 128 else plen))
    else if ae == 3 then
      if pb > 8 && len < pb - 8 then BadPrefix
      else
        var tail := if pb > 8 then data[..pb - 8] else [];
        Parsed(pb - 8, MaskPrefix(Padded([0xFE, 0x80, 0, 0, 0, 0, 0, 0] + tail), if plen < 0 then 128 else plen))
    else BadPrefix
  }

  function Padded(s: seq<Byte>): Prefix
    requires |s| <= 16
  {
    s + ZEROS[|s|..]
  }

  // ---------- Decoder state ----------

  datatype Decoder = Decoder(
    haveId: bool, id: RouterId,
    haveV4: bool, v4: Prefix,
    haveV6: bool, v6: Prefix,
    haveV4Nh: bool, v4Nh: Prefix,
    haveV6Nh: bool, v6Nh: Prefix)

  /** Two octets that follow something in memory. */
  type Beyond = s: seq<Byte> | |s| == 2 witness [0, 0]

  /** What happens to be in the uninitialised locals of `parse_packet`, and behind the packet. */
  datatype Memory = Memory(id: RouterId, v4: Prefix, v6: Prefix, v4Nh: Prefix, v6Nh: Prefix, beyond: Beyond)
  {
    function Start(): Decoder { Decoder(false, id, false, v4, false, v6, false, v4Nh, false, v6Nh) }
  }

  const CLEAR := Memory([0, 0, 0, 0, 0, 0, 0, 0], ZEROS, ZEROS, ZEROS, ZEROS, [0, 0])

  const FRESH := CLEAR.Start()

  datatype NextHop = Neighbour | Via(address: Prefix)

  /** What a packet tells about routes: the calls of update_route and retract_neighbour_routes. */
  datatype Event =
    | Route(id: RouterId, prefix: Prefix, plen: Byte, seqno: U16, metric: U16, interval: U16, nexthop: NextHop)
    | RetractAll

  predicate Bit80(b: Byte) { b / 0x80 % 2 == 1 }
  predicate Bit40(b: Byte) { b / 0x40 % 2 == 1 }

  /** A TLV: its type and length octets and `t[1]` octets of body. */
  predicate Framed(t: seq<Byte>) { |t| >= 2 && |t| - 2 == t[1] }

  function ParseRouterId(st: Decoder, t: seq<Byte>): Decoder
    requires Framed(t)
  {
    if t[1] < 10 then st.(haveId := false) else st.(haveId := true, id := t[4..12])
  }

  function ParseNh(st: Decoder, t: seq<Byte>): Decoder
    requires Framed(t)
  {
    if t[1] < 2 then st.(haveV4Nh := false, haveV6Nh := false)
    else
      KeepNh(st, t[2], NetworkPrefix(t[2], -1, 0, t[4..], ZEROS, |t| - 4))
  }

  function KeepNh(st: Decoder, ae: Byte, r: PrefixResult): Decoder
  {
    if r.BadPrefix? || r.used < 0 then st.(haveV4Nh := false, haveV6Nh := false)
    else if ae == 1 then st.(haveV4Nh := true, v4Nh := r.prefix)
    else st.(haveV6Nh := true, v6Nh := r.prefix)
  }

  function Forget(st: Decoder, flags: Byte): Decoder
  {
    if Bit80(flags) then st.(haveV4 := false, haveV6 := false) else st
  }

  function RememberPrefix(st: Decoder, ae: Byte, flags: Byte, prefix: Prefix): Decoder
  {
    if !Bit80(flags) then st
    else if ae == 1 then st.(haveV4 := true, v4 := prefix)
    else st.(haveV6 := true, v6 := prefix)
  }

  function RememberId(st: Decoder, ae: Byte, flags: Byte, prefix: Prefix): Decoder
  {
    if !Bit40(flags) then st
    else if ae == 1 then st.(haveId := true, id := [0, 0, 0, 0] + prefix[12..])
    else st.(haveId := true, id := prefix[8..])
  }

  /** The default prefix and the router-id that an accepted update leaves for its successors. */
  function Remember(st: Decoder, ae: Byte, flags: Byte, prefix: Prefix): Decoder
  {
    RememberId(RememberPrefix(st, ae, flags, prefix), ae, flags, prefix)
  }

  /** The prefix in an update TLV, decompressed with the default prefix for its encoding, known or not. */
  function RawPrefix(st: Decoder, t: seq<Byte>): PrefixResult
    requires Framed(t) && t[1] >= 10
  {
    NetworkPrefix(t[2], t[4], t[5], t[12..], if t[2] == 1 then st.v4 else st.v6, |t| - 12)
  }

  /** ... where a compressed prefix is refused unless `known` says that there is a default. */
  function PrefixIf(st: Decoder, t: seq<Byte>, known: bool): PrefixResult
    requires Framed(t) && t[1] >= 10
  {
    if t[5] == 0 || known then RawPrefix(st, t) else BadPrefix
  }

  /** Whether there is a default prefix, as the source looks it up: by the flags octet. */
  predicate KnownByFlags(st: Decoder, t: seq<Byte>)
    requires |t| > 3
  {
    if t[3] == 1 then st.haveV4 else st.haveV6
  }

  /** ... and as the prefix itself is then chosen: by the address encoding. */
  predicate KnownByEncoding(st: Decoder, t: seq<Byte>)
    requires |t| > 3
  {
    if t[2] == 1 then st.haveV4 else st.haveV6
  }

  /** The prefix carried by an update TLV of at least ten octets, with the test on the flags octet as in the source. */
  function UpdatePrefix(st: Decoder, t: seq<Byte>): PrefixResult
    requires Framed(t) && t[1] >= 10
  {
    PrefixIf(st, t, KnownByFlags(st, t))
  }

  /** The call of update_route that an accepted update TLV leads to. */
  function Announcement(st: Decoder, t: seq<Byte>, prefix: Prefix): Event
    requires Framed(t) && t[1] >= 10
  {
    var ae := t[2];
    var plen: int := t[4] as int + if ae == 1 then 96 else 0;
    var nh := if ae == 1 then Via(st.v4Nh) else if st.haveV6Nh then Via(st.v6Nh) else Neighbour;
    Route(st.id, prefix, plen % 0x100, Get16(t[8..]), Get16(t[10..]), Get16(t[6..]), nh)
  }

  /** An update TLV of at least ten octets, once its prefix has been worked out. */
  function UpdateWith(st: Decoder, t: seq<Byte>, r: PrefixResult, ipv4: bool): (Decoder, seq<Event>)
    requires Framed(t) && t[1] >= 10
  {
    if r.BadPrefix? || r.used < 0 then (Forget(st, t[3]), [])
    else
      var ae := t[2];
      var st1 := Remember(st, ae, t[3], r.prefix);
      if !st1.haveId && ae != 0 then (st1, [])
      else if ae == 0 then (st1, if Get16(t[10..]) < 0xFFFF then [] else [RetractAll])
      else if ae == 1 && (!st1.haveV4Nh || !ipv4) then (st1, [])
      else (st1, [Announcement(st1, t, r.prefix)])
  }

  lemma Announced(st: Decoder, t: seq<Byte>, prefix: Prefix, bits: Byte, nexthop: NextHop)
    requires Framed(t) && t[1] >= 10
    requires bits == (t[4] as int) + if t[2] == 1 then 96 else 0
    requires nexthop == if t[2] == 1 then Via(st.v4Nh) else if st.haveV6Nh then Via(st.v6Nh) else Neighbour
    ensures Announcement(st, t, prefix)
        == Route(st.id, prefix, bits, Get16(t[8..]), Get16(t[10..]), Get16(t[6..]), nexthop)
  {
  }

  /** An update with a readable prefix, from a known router, announces a route. */
  lemma UpdateTaken(st: Decoder, t: seq<Byte>, r: PrefixResult, st1: Decoder, bits: Byte, nexthop: NextHop)
    requires Framed(t) && t[1] >= 10 && t[2] in {1, 2} && r.Parsed? && r.used >= 0
    requires st1 == Remember(st, t[2], t[3], r.prefix) && st1.haveId && (t[2] == 1 ==> st.haveV4Nh)
    requires bits == (t[4] as int) + if t[2] == 1 then 96 else 0
    requires nexthop == if t[2] == 1 then Via(st.v4Nh) else if st.haveV6Nh then Via(st.v6Nh) else Neighbour
    ensures UpdateWith(st, t, r, true)
         == (st1, [Route(st1.id, r.prefix, bits, Get16(t[8..]), Get16(t[10..]), Get16(t[6..]), nexthop)])
  {
    Announced(st1, t, r.prefix, bits, nexthop);
    assert UpdateWith(st, t, r, true) == (st1, [Announcement(st1, t, r.prefix)]);
  }

  /** The UPDATE case of `parse_packet`; `ipv4` tells whether the receiving interface has an IPv4 address. */
  function ParseUpdate(st: Decoder, t: seq<Byte>, ipv4: bool): (Decoder, seq<Event>)
    requires Framed(t)
  {
    if t[1] < 10 then
      (if t[1] < 2 then st.(haveV4 := false, haveV6 := false) else Forget(st, t[3]), [])
    else UpdateWith(st, t, UpdatePrefix(st, t), ipv4)
  }

  /** One round of the loop of `parse_packet`, for the message types that concern updates. */
  function ParseTlv(st: Decoder, t: seq<Byte>, ipv4: bool): (Decoder, seq<Event>)
    requires Framed(t)
  {
    if t[0] == MESSAGE_ROUTER_ID then (ParseRouterId(st, t), [])
    else if t[0] == MESSAGE_NH then (ParseNh(st, t), [])
    else if t[0] == MESSAGE_UPDATE then ParseUpdate(st, t, ipv4)
    else (st, [])
  }

  // ---------- The loop over a packet ----------

  /**
    The TLV at the front of `rest`.  The bounds check of `parse_packet` forgets the type and
    length octets, so the TLV may reach into the two octets behind the body.
  */
  function FirstTlv(rest: seq<Byte>, beyond: Beyond): (t: seq<Byte>)
    requires rest != [] && (rest + beyond)[1] <= |rest|
    ensures Framed(t) && t[0] == rest[0] && t[1] == (rest + beyond)[1]
  {
    (rest + beyond)[..(rest + beyond)[1] as int + 2]
  }

  /** The TLVs of a packet body, as the loop of `parse_packet` meets them. */
  function Frames(rest: seq<Byte>, beyond: Beyond): (ts: seq<seq<Byte>>)
    decreases |rest|
  {
    if rest == [] then []
    else if rest[0] == MESSAGE_PAD1 then Frames(rest[1..], beyond)
    else if (rest + beyond)[1] > |rest| then []
    else
      var t := FirstTlv(rest, beyond);
      [t] + Frames(From(rest, |t|), beyond)
  }

  /** What is left of `body` at index `i`. */
  function From(body: seq<Byte>, i: nat): seq<Byte> { if i <= |body| then body[i..] else [] }

  /** Treatment of one TLV. */
  type Parser = (Decoder, seq<Byte>) -> (Decoder, seq<Event>)

  /** The state after a list of TLVs. */
  function StateAfter(parse: Parser, start: Decoder, ts: seq<seq<Byte>>): Decoder
  {
    if ts == [] then start else parse(StateAfter(parse, start, ts[..|ts| - 1]), ts[|ts| - 1]).0
  }

  /** The events that a list of TLVs gives rise to. */
  function EventsOf(parse: Parser, start: Decoder, ts: seq<seq<Byte>>): seq<Event>
  {
    if ts == [] then []
    else
      var n := |ts| - 1;
      EventsOf(parse, start, ts[..n]) + parse(StateAfter(parse, start, ts[..n]), ts[n]).1
  }

  lemma AfterOneMore(parse: Parser, start: Decoder, ts: seq<seq<Byte>>, t: seq<Byte>)
    ensures StateAfter(parse, start, ts + [t]) == parse(StateAfter(parse, start, ts), t).0
    ensures EventsOf(parse, start, ts + [t]) == EventsOf(parse, start, ts) + parse(StateAfter(parse, start, ts), t).1
  {
    assert (ts + [t])[..|ts|] == ts;
  }

  function TlvParser(ipv4: bool): Parser
  {
    (st: Decoder, t: seq<Byte>) => if Framed(t) then ParseTlv(st, t, ipv4) else (st, [])
  }

  /** Everything a packet body says about routes, given what the memory holds. */
  function Decode(body: seq<Byte>, m: Memory, ipv4: bool): seq<Event>
  {
    EventsOf(TlvParser(ipv4), m.Start(), Frames(body, m.beyond))
  }

  lemma FramesPad(body: seq<Byte>, beyond: Beyond, i: nat)
    requires i < |body| && body[i] == MESSAGE_PAD1
    ensures Frames(From(body, i), beyond) == Frames(From(body, i + 1), beyond)
  {
    assert body[i..][1..] == body[i + 1..];
  }

  lemma FramesStop(body: seq<Byte>, beyond: Beyond, i: nat)
    requires i < |body| && body[i] != MESSAGE_PAD1 && (body + beyond)[i + 1] > |body| - i
    ensures Frames(From(body, i), beyond) == []
  {
    assert (body[i..] + beyond)[1] == (body + beyond)[i + 1];
  }

  lemma FramesTake(body: seq<Byte>, beyond: Beyond, i: nat, t: seq<Byte>)
    requires i < |body| && body[i] != MESSAGE_PAD1 && (body + beyond)[i + 1] <= |body| - i
    requires t == (body + beyond)[i..i + 2 + (body + beyond)[i + 1] as int]
    ensures Frames(From(body, i), beyond) == [t] + Frames(From(body, i + |t|), beyond)
  {
    var rest := body[i..];
    assert (rest + beyond)[1] == (body + beyond)[i + 1];
    SliceBehind(body, beyond, i, |t|);
    assert FirstTlv(rest, beyond) == t;
    assert From(rest, |t|) == From(body, i + |t|);
  }

  lemma SliceBehind(body: seq<Byte>, beyond: seq<Byte>, i: nat, n: nat)
    requires i <= |body| && i + n <= |body| + |beyond|
    ensures (body[i..] + beyond)[..n] == (body + beyond)[i..i + n]
  {
  }

  /** The TLVs `ts` have been found when the index is `i`. */
  ghost predicate FoundAt(body: seq<Byte>, beyond: Beyond, ts: seq<seq<Byte>>, i: nat)
  {
    Frames(body, beyond) == ts + Frames(From(body, i), beyond)
  }

  /** One round of the loop that finds a TLV. */
  lemma FrameStep(body: seq<Byte>, beyond: Beyond, ts: seq<seq<Byte>>, i: nat, t: seq<Byte>, ts': seq<seq<Byte>>,
      next: nat)
    requires FoundAt(body, beyond, ts, i) && ts' == ts + [t]
    requires Frames(From(body, i), beyond) == [t] + Frames(From(body, next), beyond)
    ensures FoundAt(body, beyond, ts', next)
  {
    MoveOn(Frames(body, beyond), ts, t, Frames(From(body, next), beyond), ts');
  }

  lemma FrameRound(body: seq<Byte>, beyond: Beyond, ts: seq<seq<Byte>>, i: nat, t: seq<Byte>, ts': seq<seq<Byte>>,
      next: nat)
    requires i < |body| && body[i] != MESSAGE_PAD1 && (body + beyond)[i + 1] <= |body| - i
    requires t == (body + beyond)[i..i + 2 + (body + beyond)[i + 1] as int]
    requires FoundAt(body, beyond, ts, i) && ts' == ts + [t] && next == i + |t|
    ensures FoundAt(body, beyond, ts', next)
  {
    assert Frames(From(body, i), beyond) == [t] + Frames(From(body, next), beyond) by {
      FramesTake(body, beyond, i, t);
    }
    FrameStep(body, beyond, ts, i, t, ts', next);
  }

  /** The other two: padding, and a TLV that does not fit. */
  lemma FrameSkip(body: seq<Byte>, beyond: Beyond, ts: seq<seq<Byte>>, i: nat)
    requires i < |body| && FoundAt(body, beyond, ts, i)
    ensures body[i] == MESSAGE_PAD1 ==> FoundAt(body, beyond, ts, i + 1)
    ensures body[i] != MESSAGE_PAD1 && (body + beyond)[i + 1] > |body| - i ==> Frames(body, beyond) == ts
  {
    if body[i] == MESSAGE_PAD1 {
      FramesPad(body, beyond, i);
    } else if (body + beyond)[i + 1] > |body| - i {
      FramesStop(body, beyond, i);
    }
  }

  /** State and events are those of the TLVs `ts`. */
  ghost predicate Sofar(parse: Parser, start: Decoder, ts: seq<seq<Byte>>, st: Decoder, events: seq<Event>)
  {
    st == StateAfter(parse, start, ts) && events == EventsOf(parse, start, ts)
  }

  /** What one TLV does to the local state and to the routes. */
  method TakeTlv(parse: Parser, st: Decoder, events: seq<Event>, t: seq<Byte>, ghost start: Decoder,
      ghost ts: seq<seq<Byte>>)
    returns (st': Decoder, events': seq<Event>)
    requires Sofar(parse, start, ts, st, events)
    ensures Sofar(parse, start, ts + [t], st', events')
  {
    AfterOneMore(parse, start, ts, t);
    var r := parse(st, t);
    st', events' := r.0, events + r.1;
  }

  /** The loop of `parse_packet`, with its index and its local state; `memory` is the body and what follows it. */
  method ParseBody(parse: Parser, start: Decoder, memory: seq<Byte>, bodylen: nat) returns (events: seq<Event>)
    requires |memory| == bodylen + 2
    ensures events == EventsOf(parse, start, Frames(memory[..bodylen], memory[bodylen..]))
  {
    ghost var body, beyond := memory[..bodylen], memory[bodylen..];
    assert memory == body + beyond;
    var st, i := start, 0;
    events := [];
    ghost var ts := [];
    assert From(body, 0) == body;
    while i < bodylen
      invariant FoundAt(body, beyond, ts, i)
      invariant Sofar(parse, start, ts, st, events)
      decreases bodylen - i
    {
      if memory[i] == MESSAGE_PAD1 {
        FrameSkip(body, beyond, ts, i);
        i := i + 1;
        continue;
      }
      var len: int := memory[i + 1];
      if i + len > bodylen {
        FrameSkip(body, beyond, ts, i);
        return;
      }
      var t := memory[i..i + 2 + len];
      st, events := TakeTlv(parse, st, events, t, start, ts);
      ghost var found, at := ts, i;
      i, ts := i + len + 2, ts + [t];
      FrameRound(body, beyond, found, at, t, ts, i);
    }
    assert Frames(From(body, i), beyond) == [];
    assert Frames(body, beyond) == ts;
  }

  // ---------- Composition ----------

  /** The octets of a list of TLVs. */
  function Concat(ts: seq<seq<Byte>>): seq<Byte>
  {
    if ts == [] then [] else Concat(ts[..|ts| - 1]) + ts[|ts| - 1]
  }

  /** A TLV that is not padding. */
  predicate Solid(t: seq<Byte>) { Framed(t) && t[0] != MESSAGE_PAD1 }

  lemma ConcatNonempty(ts: seq<seq<Byte>>)
    requires forall t <- ts :: Solid(t)
    ensures ts == [] <==> Concat(ts) == []
  {
    if ts != [] { assert ts[|ts| - 1] in ts; }
  }

  lemma FramesCons(t: seq<Byte>, rest: seq<Byte>, beyond: Beyond)
    requires Solid(t)
    ensures Frames(t + rest, beyond) == [t] + Frames(rest, beyond)
  {
    var s := t + rest;
    FrontOf(t, rest, beyond);
    assert FirstTlv(s, beyond) == t && From(s, |t|) == rest;
    assert Frames(s, beyond) == [FirstTlv(s, beyond)] + Frames(From(s, |FirstTlv(s, beyond)|), beyond);
  }

  lemma FrontOf(t: seq<Byte>, rest: seq<Byte>, beyond: seq<Byte>)
    requires |t| >= 2
    ensures (t + rest)[0] == t[0] && (t + rest + beyond)[1] == t[1]
    ensures (t + rest + beyond)[..|t|] == t && (t + rest)[|t|..] == rest
  {
  }

  lemma ConcatSnoc(ts: seq<seq<Byte>>, rest: seq<Byte>, n: nat)
    requires |ts| == n + 1
    ensures Concat(ts) + rest == Concat(ts[..n]) + (ts[n] + rest)
  {
  }

  /** Framing undoes concatenation, whatever follows in memory. */
  lemma {:induction false} FramesConcat(ts: seq<seq<Byte>>, rest: seq<Byte>, beyond: Beyond)
    requires forall t <- ts :: Solid(t)
    ensures Frames(Concat(ts) + rest, beyond) == ts + Frames(rest, beyond)
  {
    if ts == [] {
      assert Concat(ts) + rest == rest;
    } else {
      var n := |ts| - 1;
      ConcatSnoc(ts, rest, n);
      FramesConcat(ts[..n], ts[n] + rest, beyond);
      FramesCons(ts[n], rest, beyond);
      SnocAppend(ts, n, Frames(rest, beyond));
    }
  }

  /** A packet built from TLVs decodes to what the TLVs say one after the other. */
  lemma DecodeConcat(ts: seq<seq<Byte>>, m: Memory, ipv4: bool)
    requires forall t <- ts :: Solid(t)
    ensures Decode(Concat(ts), m, ipv4) == EventsOf(TlvParser(ipv4), m.Start(), ts)
  {
    FramesConcat(ts, [], m.beyond);
    assert Concat(ts) + [] == Concat(ts);
    assert Frames(Concat(ts), m.beyond) == ts;
  }

  // ---------- The packet ----------

  /** The body that the header announces, at most what has arrived. */
  function BodyLength(packet: seq<Byte>): (n: nat)
    requires |packet| >= 4
    ensures n + 4 <= |packet|
  {
    Min(|packet|, Get16(packet[2..]) as int + 4) - 4
  }

  /** `linklocal`. */
  predicate LinkLocal(address: Prefix) { address[..8] == [0xFE, 0x80, 0, 0, 0, 0, 0, 0] }

  /** What a packet says, `m.beyond` being the octets behind it in the receive buffer. */
  function Understood(packet: seq<Byte>, m: Memory, ipv4: bool): seq<Event>
  {
    if |packet| < 4 || packet[0] != 42 || packet[1] != 2 then []
    else
      var n := BodyLength(packet);
      Decode(packet[4..4 + n], m.(beyond := (packet + m.beyond)[4 + n..6 + n]), ipv4)
  }

  /**
    `parse_packet`; `known` says that the neighbour could be allocated.  A packet without a
    whole header has a negative body length, whatever is read for its header.
  */
  method ParsePacket(from: Prefix, known: bool, packet: seq<Byte>, m: Memory, ipv4: bool) returns (events: seq<Event>)
    ensures LinkLocal(from) && known ==> events == Understood(packet, m, ipv4)
    ensures !LinkLocal(from) || !known ==> events == []
  {
    if !LinkLocal(from) { return []; }
    if |packet| < 4 { return []; }
    if packet[0] != 42 { return []; }
    if packet[1] != 2 { return []; }
    if !known { return []; }
    events := ParseRest(packet, m, ipv4);
  }

  /** `parse_packet` behind its checks. */
  method ParseRest(packet: seq<Byte>, m: Memory, ipv4: bool) returns (events: seq<Event>)
    requires |packet| >= 4 && packet[0] == 42 && packet[1] == 2
    ensures events == Understood(packet, m, ipv4)
  {
    var bodylen: int := Get16(packet[2..]);
    if bodylen + 4 > |packet| { bodylen := |packet| - 4; }
    assert bodylen == BodyLength(packet);
    var memory := (packet + m.beyond)[4..6 + bodylen];
    BodyInMemory(packet, m.beyond, bodylen);
    events := ParseBody(TlvParser(ipv4), m.Start(), memory, bodylen);
  }

  lemma BodyInMemory(packet: seq<Byte>, beyond: Beyond, n: nat)
    requires 4 + n <= |packet|
    ensures (packet + beyond)[4..6 + n][..n] == packet[4..4 + n]
    ensures (packet + beyond)[4..6 + n][n..] == (packet + beyond)[4 + n..6 + n]
  {
  }

  /** The packet that `flushbuf` sends for a full send buffer. */
  function Packet(body: seq<Byte>): (packet: seq<Byte>)
    ensures |packet| == 4 + |body|
  {
    [42, 2] + Put16(|body| % 0x10000) + body
  }

  /** Its header announces the body, so the body is what is understood. */
  lemma PacketUnderstood(body: seq<Byte>, m: Memory, ipv4: bool)
    requires |body| < 0x10000
    ensures Understood(Packet(body), m, ipv4) == Decode(body, m, ipv4)
  {
    HeaderRead(body);
    assert Packet(body)[4..4 + |body|] == body;
    assert (Packet(body) + m.beyond)[4 + |body|..6 + |body|] == m.beyond;
    assert m.(beyond := m.beyond) == m;
  }

  /** Octets behind the announced body are only looked at where a message reaches over its end. */
  lemma TrailerIgnored(body: seq<Byte>, trailer: seq<Byte>, m: Memory, ipv4: bool)
    requires |body| < 0x10000
    ensures Understood(Packet(body) + trailer, m, ipv4)
         == Decode(body, m.(beyond := (trailer + m.beyond)[..2]), ipv4)
  {
    HeaderRead(body);
    var packet, n := Packet(body) + trailer, |body|;
    assert packet[0] == 42 && packet[1] == 2 && packet[2..][..2] == Packet(body)[2..][..2];
    assert Get16(packet[2..]) == Get16(packet[2..][..2]) == Get16(Packet(body)[2..][..2]) == n;
    assert packet[4..4 + n] == body;
    assert (packet + m.beyond)[4 + n..6 + n] == (trailer + m.beyond)[..2];
  }

  lemma HeaderRead(body: seq<Byte>)
    requires |body| < 0x10000
    ensures Packet(body)[0] == 42 && Packet(body)[1] == 2 && BodyLength(Packet(body)) == |body|
  {
    var packet := Packet(body);
    assert packet[2..4] == Put16(|body|);
    assert packet[2..][0] == packet[2..4][0] && packet[2..][1] == packet[2..4][1];
  }
}

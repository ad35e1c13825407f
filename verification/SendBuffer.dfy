/**
  The send buffer of a Babel interface as the daemon keeps it: a fixed array that
  is filled octet by octet (quagga-srx/babeld/message.c).  Its methods are proved
  to do what the functions of `UpdateEncoder` say, so the round trip of
  `UpdateRoundTrip` speaks about the octets in this array.
*/
module SendBuffer {
  import opened Octets
  import opened Distance
  import opened UpdateDecoder
  import opened UpdateEncoder
  import opened UpdateRoundTrip

  class Interface {
    const sendbuf: array<Byte>
    var buffered: nat
    var interval: U16
    var ipv4: seq<Byte>
    var haveId: bool
    var id: RouterId
    var haveNh: bool
    var nh: seq<Byte>
    var havePrefix: bool
    var prefix: Prefix
    ghost var tlvs: seq<seq<Byte>>
    ghost var packets: seq<seq<Byte>>

    ghost function Model(): Sender
      reads this
    {
      Sender(sendbuf.Length, interval, ipv4, tlvs, packets, haveId, id, haveNh, nh, havePrefix, prefix)
    }

    ghost function Contents(): seq<Byte>
      reads this`buffered, sendbuf
      requires buffered <= sendbuf.Length
    {
      sendbuf[..buffered]
    }

    /** The array holds exactly the buffered messages. */
    ghost predicate Settled()
      reads this`buffered, this`tlvs, sendbuf
    {
      buffered <= sendbuf.Length && Contents() == Concat(tlvs) && forall t <- tlvs :: Solid(t)
    }

    ghost predicate Valid()
      reads this, sendbuf
    {
      Settled() && SenderOk(Model())
    }

    constructor (mtu: nat, interval: U16)
      ensures Valid() && fresh(sendbuf) && Model() == NewSender(mtu, interval)
    {
      var size := Max(mtu, 128) - 4 - 60;
      sendbuf := new Byte[size];
      buffered, this.interval, ipv4 := 0, interval, [];
      haveId, id, haveNh, nh, havePrefix, prefix := false, [0, 0, 0, 0, 0, 0, 0, 0], false, [], false, ZEROS;
      tlvs, packets := [], [];
      new;
      NewSenderOk(mtu, interval);
    }

    /** `flushbuf`. */
    method FlushBuf()
      requires Settled()
      modifies this
      ensures Settled() && Model() == Flush(old(Model()))
    {
      ConcatNonempty(tlvs);
      if buffered > 0 {
        packets := packets + [sendbuf[..buffered]];
      }
      buffered, tlvs := 0, [];
      haveId, haveNh, havePrefix := false, false, false;
    }

    /** `ensure_space`. */
    method MakeRoom(space: nat)
      requires Settled() && space <= sendbuf.Length
      modifies this
      ensures Settled() && Model() == EnsureSpace(old(Model()), space) && buffered + space <= sendbuf.Length
    {
      if sendbuf.Length - buffered < space {
        FlushBuf();
      }
    }

    /** `accumulate_byte`. */
    method AccumulateByte(v: Byte)
      requires buffered < sendbuf.Length
      modifies this`buffered, sendbuf
      ensures buffered == old(buffered) + 1 && Contents() == old(Contents()) + [v]
    {
      sendbuf[buffered] := v;
      buffered := buffered + 1;
    }

    /** `accumulate_short`. */
    method AccumulateShort(v: U16)
      requires buffered + 2 <= sendbuf.Length
      modifies this`buffered, sendbuf
      ensures buffered == old(buffered) + 2 && Contents() == old(Contents()) + Put16(v)
    {
      AccumulateByte(v / 0x100);
      AccumulateByte(v % 0x100);
    }

    /** `accumulate_bytes`. */
    method AccumulateBytes(v: seq<Byte>)
      requires buffered + |v| <= sendbuf.Length
      modifies this`buffered, sendbuf
      ensures buffered == old(buffered) + |v| && Contents() == old(Contents()) + v
    {
      var i := 0;
      while i < |v|
        invariant 0 <= i <= |v| && buffered == old(buffered) + i
        invariant Contents() == old(Contents()) + v[..i]
      {
        AccumulateByte(v[i]);
        i := i + 1;
      }
    }

    /** `start_message`. */
    method StartMessage(typ: Byte, len: Byte)
      requires Settled() && len + 2 <= sendbuf.Length
      modifies this, sendbuf
      ensures Model() == EnsureSpace(old(Model()), (len as int) + 2)
      ensures buffered + len <= sendbuf.Length && Contents() == Concat(tlvs) + [typ, len]
    {
      MakeRoom((len as int) + 2);
      AccumulateByte(typ);
      AccumulateByte(len);
    }

    /** `end_message`: the message just written is complete. */
    method EndMessage(typ: Byte, bytes: Byte, ghost t: seq<Byte>)
      requires buffered <= sendbuf.Length && Contents() == Concat(tlvs) + t && Solid(t) && t[0] == typ && t[1] == bytes
      requires forall t <- tlvs :: Solid(t)
      modifies this`tlvs
      ensures Settled() && tlvs == old(tlvs) + [t]
    {
      assert Contents()[buffered - bytes - 2] == typ && Contents()[buffered - bytes - 1] == bytes;
      tlvs := tlvs + [t];
      assert tlvs[..|tlvs| - 1] == old(tlvs);
    }

    method AccumulateNh(address: seq<Byte>)
      requires buffered + 2 + |address| <= sendbuf.Length
      modifies this`buffered, sendbuf
      ensures buffered == old(buffered) + 2 + |address| && Contents() == old(Contents()) + ([1, 0] + address)
    {
      AccumulateByte(1);
      AccumulateByte(0);
      AccumulateBytes(address);
    }

    /** The NH message of `really_send_update`. */
    method EmitNh(address: seq<Byte>)
      requires Settled() && |address| == 4 && sendbuf.Length >= 64
      modifies this, sendbuf
      ensures Settled() && Model() == Push(old(Model()), NhTlv(address))
    {
      ghost var t := NhTlv(address);
      assert [MESSAGE_NH, 6] + ([1, 0] + address) == t;
      StartMessage(MESSAGE_NH, 6);
      ghost var s1 := Model();
      AccumulateNh(address);
      assert Contents() == Concat(tlvs) + t;
      EndMessage(MESSAGE_NH, 6, t);
      assert Model() == s1.(tlvs := s1.tlvs + [t]);
      PushIs(old(Model()), t, s1);
    }

    /** The ROUTER_ID message of `really_send_update`. */
    method EmitId(id': RouterId)
      requires Settled() && sendbuf.Length >= 64
      modifies this, sendbuf
      ensures Settled() && Model() == Push(old(Model()), IdTlv(id'))
    {
      ghost var t := IdTlv(id');
      assert [MESSAGE_ROUTER_ID, 10] + ([0, 0] + id') == t;
      StartMessage(MESSAGE_ROUTER_ID, 10);
      ghost var s1 := Model();
      AccumulateId(id');
      assert Contents() == Concat(tlvs) + t;
      EndMessage(MESSAGE_ROUTER_ID, 10, t);
      assert Model() == s1.(tlvs := s1.tlvs + [t]);
      PushIs(old(Model()), t, s1);
    }

    method AccumulateId(id': RouterId)
      requires buffered + 10 <= sendbuf.Length
      modifies this`buffered, sendbuf
      ensures buffered == old(buffered) + 10 && Contents() == old(Contents()) + ([0, 0] + id')
    {
      AccumulateShort(0);
      assert Put16(0) == [0, 0];
      AccumulateBytes(id');
    }

    /** Type, length and the four single octets of an UPDATE message. */
    method StartUpdate(len: Byte, ae: Byte, flags: Byte, plen: Byte, omit: Byte)
      requires Settled() && 10 <= len && len + 2 <= sendbuf.Length
      modifies this, sendbuf
      ensures Model() == EnsureSpace(old(Model()), (len as int) + 2)
      ensures buffered + len - 4 <= sendbuf.Length
      ensures Contents() == Concat(tlvs) + [MESSAGE_UPDATE, len, ae, flags, plen, omit]
    {
      StartMessage(MESSAGE_UPDATE, len);
      ghost var base := Concat(tlvs);
      AccumulateFour(ae, flags, plen, omit);
      assert base + [MESSAGE_UPDATE, len] + [ae, flags, plen, omit]
          == base + [MESSAGE_UPDATE, len, ae, flags, plen, omit];
    }

    method AccumulateFour(a: Byte, b: Byte, c: Byte, d: Byte)
      requires buffered + 4 <= sendbuf.Length
      modifies this`buffered, sendbuf
      ensures buffered == old(buffered) + 4 && Contents() == old(Contents()) + [a, b, c, d]
    {
      AccumulateByte(a);
      AccumulateByte(b);
      AccumulateByte(c);
      AccumulateByte(d);
    }

    method AccumulateFields(seqno: U16, metric: U16, octets: seq<Byte>, channels: seq<Byte>)
      requires buffered + 6 + |octets| + |channels| <= sendbuf.Length
      modifies this`buffered, sendbuf
      ensures buffered == old(buffered) + 6 + |octets| + |channels|
      ensures Contents() == old(Contents()) + (Put16(interval) + Put16(seqno) + Put16(metric) + (octets + channels))
    {
      AccumulateShort(interval);
      AccumulateShort(seqno);
      AccumulateShort(metric);
      ghost var w := Put16(interval) + Put16(seqno) + Put16(metric);
      assert Contents() == old(Contents()) + w;
      AccumulateBytes(octets);
      AccumulateBytes(channels);
      assert Contents() == old(Contents()) + w + octets + channels;
    }

    /** The UPDATE message of `really_send_update`. */
    method EmitUpdate(ae: Byte, flags: Byte, plen: Byte, omit: Byte, seqno: U16, metric: U16, octets: seq<Byte>,
        channels: seq<Byte>)
      requires Settled() && |octets| <= 16 && |channels| <= 10 && sendbuf.Length >= 64
      modifies this, sendbuf
      ensures Settled()
      ensures Model()
          == Push(old(Model()), UpdateTlv(ae, flags, plen, omit, old(interval), seqno, metric, octets + channels))
    {
      var len := 10 + |octets| + |channels|;
      StartUpdate(len, ae, flags, plen, omit);
      AccumulateFields(seqno, metric, octets, channels);
      ghost var t := UpdateTlv(ae, flags, plen, omit, interval, seqno, metric, octets + channels);
      UpdateTlvParts(Concat(tlvs), ae, flags, plen, omit, interval, seqno, metric, octets + channels);
      EndMessage(MESSAGE_UPDATE, len, t);
    }

    method MarkNh()
      modifies this`haveNh, this`nh
      ensures Model() == old(Model()).(haveNh := true, nh := old(ipv4))
    {
      haveNh, nh := true, ipv4;
    }

    method MarkPrefix(p: Prefix)
      requires Settled()
      modifies this`havePrefix, this`prefix
      ensures Settled() && Model() == old(Model()).(havePrefix := true, prefix := p)
    {
      havePrefix, prefix := true, p;
    }

    method MarkId(id': RouterId)
      modifies this`haveId, this`id
      ensures Model() == old(Model()).(haveId := true, id := id')
    {
      haveId, id := true, id';
    }

    /** The NH message, when the receiver does not have the right next hop. */
    method AnnounceNh()
      requires Settled() && |ipv4| == 4 && sendbuf.Length >= 64
      modifies this, sendbuf
      ensures Settled() && ipv4 == old(ipv4) && interval == old(interval)
      ensures Model() == if !old(haveNh) || old(nh) != old(ipv4)
                         then Push(old(Model()), NhTlv(old(ipv4))).(haveNh := true, nh := old(ipv4))
                         else old(Model())
    {
      if !haveNh || nh != ipv4 {
        EmitNh(ipv4);
        MarkNh();
      }
    }

    /** The router-id, either in its own message or by a flag. */
    method AnnounceId(u: Update) returns (inPrefix: bool)
      requires Settled() && sendbuf.Length >= 64
      modifies this, sendbuf
      ensures Settled() && ipv4 == old(ipv4) && interval == old(interval)
      ensures inPrefix == IdInPrefix(old(Model()), u) && Model() == SendId(old(Model()), u)
    {
      inPrefix := false;
      if !haveId || u.id != id {
        var v4 := u.plen >= 96 && u.prefix[..12] == V4PREFIX;
        if !v4 && u.plen == 128 && u.prefix[8..] == u.id {
          inPrefix := true;
        } else {
          EmitId(u.id);
        }
        MarkId(u.id);
      }
    }

    /** `really_send_update`. */
    method ReallySendUpdate(u: Update, up: bool, filter: U16, channels: seq<Byte>)
      requires Valid() && u.plen <= 128 && |channels| <= 10
      modifies this, sendbuf
      ensures Settled() && Model() == SendUpdate(old(Model()), u, up, filter, channels)
      ensures Canonical(u.prefix, u.plen) ==>
        Valid() && Told(Model()) == old(Told(Model()) + Expected(Model(), u, up, filter))
    {
      if Canonical(u.prefix, u.plen) { SendUpdateTells(Model(), u, up, filter, channels); }
      WriteUpdate(u, up, filter, channels);
    }

    method WriteUpdate(u: Update, up: bool, filter: U16, channels: seq<Byte>)
      requires Settled() && SenderOk(Model()) && u.plen <= 128 && |channels| <= 10
      modifies this, sendbuf
      ensures Settled() && Model() == SendUpdate(old(Model()), u, up, filter, channels)
    {
      if !up { return; }
      if filter >= INFINITY { return; }
      var metric := Min((u.metric as int) + filter, INFINITY);
      MakeRoom(60);
      var v4 := u.plen >= 96 && u.prefix[..12] == V4PREFIX;
      if v4 {
        if ipv4 == [] { return; }
        SendV4(u, metric, channels);
      } else {
        SendV6(u, metric, channels);
      }
    }

    method SendV4(u: Update, metric: U16, channels: seq<Byte>)
      requires Settled() && IsV4(u) && u.plen <= 128 && |ipv4| == 4 && |channels| <= 10 && sendbuf.Length >= 64
      modifies this, sendbuf
      ensures Settled()
      ensures var s2 := SendNh(old(Model()), u);
        Model() == Push(SendId(s2, u), V4Message(s2, u, metric, channels))
    {
      AnnounceNh();
      ghost var s2 := Model();
      assert s2 == SendNh(old(Model()), u);
      var inPrefix := AnnounceId(u);
      assert Model() == SendId(s2, u);
      EmitUpdate(1, 0, u.plen - 96, 0, u.seqno, metric, u.prefix[12..12 + PrefixBytes(u.plen - 96)], channels);
      assert Model() == Push(SendId(s2, u), V4Message(s2, u, metric, channels));
    }

    method SendV6(u: Update, metric: U16, channels: seq<Byte>)
      requires Settled() && !IsV4(u) && u.plen <= 128 && |channels| <= 10 && sendbuf.Length >= 64
      modifies this, sendbuf
      ensures Settled()
      ensures Model() == SendMessage(old(Model()), u, metric, channels)
    {
      ghost var sent := Push(SendId(Model(), u), MessageFor(Model(), u, metric, channels));
      var omit := CountOmitted(u);
      var sets := !havePrefix || u.plen >= 48;
      var inPrefix := AnnounceId(u);
      EmitUpdate(2, FlagsOf(sets, inPrefix), u.plen, omit, u.seqno, metric, u.prefix[omit..PrefixBytes(u.plen)],
          channels);
      assert Model() == sent;
      if sets { MarkPrefix(u.prefix); }
    }

    method CountOmitted(u: Update) returns (omit: nat)
      requires !IsV4(u) && u.plen <= 128
      ensures omit == Omit(Model(), u) && omit <= PrefixBytes(u.plen) <= 16
    {
      omit := 0;
      if havePrefix {
        omit := CountCommon(u.prefix, u.plen / 8);
      }
    }

    /** The loop that counts the octets shared with the default prefix. */
    method CountCommon(p: Prefix, n: nat) returns (k: nat)
      requires n <= 16
      ensures k == Common(prefix, p, n)
    {
      k := 0;
      while k < n && prefix[k] == p[k]
        invariant k <= n && prefix[..k] == p[..k]
      {
        k := k + 1;
      }
      CommonUnique(prefix, p, n, k);
    }
  }

  lemma PushIs(s: Sender, t: seq<Byte>, s1: Sender)
    requires s1 == EnsureSpace(s, |t|)
    ensures Push(s, t) == s1.(tlvs := s1.tlvs + [t])
  {
  }

  lemma UpdateTlvParts(base: seq<Byte>, ae: Byte, flags: Byte, plen: Byte, omit: Byte, interval: U16, seqno: U16,
      metric: U16, data: seq<Byte>)
    requires |data| <= 26
    ensures base + [MESSAGE_UPDATE, 10 + |data|, ae, flags, plen, omit]
        + (Put16(interval) + Put16(seqno) + Put16(metric) + data)
         == base + UpdateTlv(ae, flags, plen, omit, interval, seqno, metric, data)
  {
    var hdr, mid := [MESSAGE_UPDATE, 10 + |data|, ae, flags, plen, omit],
        Put16(interval) + Put16(seqno) + Put16(metric);
    assert hdr + (mid + data) == UpdateTlv(ae, flags, plen, omit, interval, seqno, metric, data);
  }

  lemma CommonUnique(a: Prefix, b: Prefix, n: nat, k: nat)
    requires n <= 16 && k <= n && a[..k] == b[..k] && (k < n ==> a[k] != b[k])
    ensures k == Common(a, b, n)
  {
    var c := Common(a, b, n);
    forall j | 0 <= j < k ensures a[j] == b[j] { assert a[..k][j] == b[..k][j]; }
    forall j | 0 <= j < c ensures a[j] == b[j] { assert a[..c][j] == b[..c][j]; }
  }
}

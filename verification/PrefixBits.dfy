/**
  Prefixes bit by bit: what `mask_prefix` (quagga-srx/babeld/util.c) and
  `network_prefix` (message.c) do, said without octet masks.
*/
module PrefixBits {
  import opened Octets
  import opened UpdateDecoder

  /** Bit `i` of an octet, the most significant first. */
  function BitOf(x: Byte, i: nat): int
    requires i < 8
  {
    x / Pow2(7 - i) % 2
  }

  function Bit(p: Prefix, i: nat): int
    requires i < 128
  {
    BitOf(p[i / 8], i % 8)
  }

  lemma Pow2Doubles(n: nat)
    requires n < 8
    ensures Pow2(0) == 1 && Pow2(n + 1) == 2 * Pow2(n)
  {
  }

  // ---------- Octets ----------

  /** An octet divided by a power of 2, by way of its half. */
  lemma HalfDiv(x: Byte, n: nat)
    requires n < 8
    ensures x / Pow2(n + 1) == x / 2 / Pow2(n)
  {
    assert n == 0 || n == 1 || n == 2 || n == 3 || n == 4 || n == 5 || n == 6 || n == 7;
  }

  lemma HalfMod(x: Byte, n: nat)
    requires n < 8
    ensures x % Pow2(n + 1) == 2 * (x / 2 % Pow2(n)) + x % 2
  {
    if n < 4 { HalfModLow(x, n); } else { HalfModHigh(x, n); }
  }

  lemma HalfModLow(x: Byte, n: nat)
    requires n < 4
    ensures x % Pow2(n + 1) == 2 * (x / 2 % Pow2(n)) + x % 2
  {
    assert n == 0 || n == 1 || n == 2 || n == 3;
  }

  lemma HalfModHigh(x: Byte, n: nat)
    requires 4 <= n < 8
    ensures x % Pow2(n + 1) == 2 * (x / 2 % Pow2(n)) + x % 2
  {
    assert n == 4 || n == 5 || n == 6 || n == 7;
  }

  /** An octet without its `n` lowest bits. */
  function Cleared(x: Byte, n: nat): Byte
    requires n <= 8
  {
    x - x % Pow2(n)
  }

  lemma HalfCleared(x: Byte, n: nat)
    requires 0 < n <= 8
    ensures Cleared(x, n) == 2 * Cleared(x / 2, n - 1)
  {
    HalfMod(x, n - 1);
  }

  lemma {:induction false} ClearedBit(x: Byte, n: nat, j: nat)
    requires n <= 8 && j < 8
    ensures Cleared(x, n) / Pow2(j) % 2 == if j >= n then x / Pow2(j) % 2 else 0
  {
    if n > 0 {
      var c, d := Cleared(x, n), Cleared(x / 2, n - 1);
      assert c == 2 * d by { HalfCleared(x, n); }
      if j > 0 {
        ClearedBit(x / 2, n - 1, j - 1);
        HalfDiv(x, j - 1);
        HalfDiv(c, j - 1);
        assert c / 2 == d;
      }
    }
  }

  lemma MaskedBit(x: Byte, b: nat, i: nat)
    requires b <= 8 && i < 8
    ensures BitOf(MaskByte(x, b), i) == if i < b then BitOf(x, i) else 0
  {
    ClearedBit(x, 8 - b, 7 - i);
  }

  /** An octet is known by its bits. */
  lemma {:induction false} ByLowBits(x: Byte, y: Byte, n: nat)
    requires n <= 8 && x < Pow2(n) && y < Pow2(n)
    requires forall j | 0 <= j < n :: x / Pow2(j) % 2 == y / Pow2(j) % 2
    ensures x == y
  {
    if n > 0 {
      Pow2Doubles(n - 1);
      assert x / Pow2(0) % 2 == y / Pow2(0) % 2;
      forall j | 0 <= j < n - 1 ensures x / 2 / Pow2(j) % 2 == y / 2 / Pow2(j) % 2 {
        HalfDiv(x, j);
        HalfDiv(y, j);
        assert x / Pow2(j + 1) % 2 == y / Pow2(j + 1) % 2;
      }
      ByLowBits(x / 2, y / 2, n - 1);
    }
  }

  lemma OctetByBits(x: Byte, y: Byte)
    requires forall i | 0 <= i < 8 :: BitOf(x, i) == BitOf(y, i)
    ensures x == y
  {
    forall j | 0 <= j < 8 ensures x / Pow2(j) % 2 == y / Pow2(j) % 2 {
      assert BitOf(x, 7 - j) == BitOf(y, 7 - j);
    }
    ByLowBits(x, y, 8);
  }

  // ---------- mask_prefix ----------

  lemma FrontOctet(p: Prefix, full: nat, k: nat)
    requires full <= 16 && k < 16
    ensures (p[..full] + ZEROS[full..])[k] == if k < full then p[k] else 0
  {
    if k >= full { assert ZEROS[full..][k - full] == ZEROS[k] == 0; }
  }

  lemma EdgeOctet(p: Prefix, full: nat, x: Byte, k: nat)
    requires full < 16 && k < 16
    ensures (p[..full] + [x] + ZEROS[full + 1..])[k] == if k < full then p[k] else if k == full then x else 0
  {
    if k > full { assert ZEROS[full + 1..][k - full - 1] == ZEROS[k] == 0; }
  }

  /** The octets of a masked prefix. */
  lemma MaskPrefixOctet(p: Prefix, plen: nat, k: nat)
    requires k < 16
    ensures MaskPrefix(p, plen)[k]
         == if k < plen / 8 then p[k] else if k == plen / 8 then MaskByte(p[k], plen % 8) else 0
  {
    if plen < 128 {
      MaskNothing(p[k]);
      if plen % 8 == 0 {
        FrontOctet(p, plen / 8, k);
      } else {
        EdgeOctet(p, plen / 8, MaskByte(p[plen / 8], plen % 8), k);
      }
    }
  }

  lemma MaskNothing(x: Byte)
    ensures MaskByte(x, 0) == 0
  {
  }

  /** The first `plen` bits stay, the others are cleared. */
  lemma MaskPrefixBits(p: Prefix, plen: nat, i: nat)
    requires i < 128
    ensures Bit(MaskPrefix(p, plen), i) == if i < plen then Bit(p, i) else 0
  {
    var k := i / 8;
    MaskPrefixOctet(p, plen, k);
    if k == plen / 8 { MaskedBit(p[k], plen % 8, i % 8); }
    ZeroBit(i % 8);
  }

  lemma ZeroBit(i: nat)
    requires i < 8
    ensures BitOf(0, i) == 0
  {
  }

  lemma PrefixByBits(p: Prefix, q: Prefix)
    requires forall i | 0 <= i < 128 :: Bit(p, i) == Bit(q, i)
    ensures p == q
  {
    forall k | 0 <= k < 16 ensures p[k] == q[k] {
      forall j | 0 <= j < 8 ensures BitOf(p[k], j) == BitOf(q[k], j) {
        assert Bit(p, 8 * k + j) == Bit(q, 8 * k + j);
      }
      OctetByBits(p[k], q[k]);
    }
  }

  /** A prefix is in canonical form exactly when all bits behind its length are 0. */
  lemma CanonicalBits(p: Prefix, plen: nat)
    ensures Canonical(p, plen) <==> plen <= 128 && forall i | plen <= i < 128 :: Bit(p, i) == 0
  {
    forall i | 0 <= i < 128
      ensures Bit(MaskPrefix(p, plen), i) == if i < plen then Bit(p, i) else 0
    {
      MaskPrefixBits(p, plen, i);
    }
    if forall i | plen <= i < 128 :: Bit(p, i) == 0 {
      PrefixByBits(MaskPrefix(p, plen), p);
    }
  }

  // ---------- network_prefix ----------

  /** How many bits count: a negative length asks for all of an address. */
  function Significant(ae: Byte, plen: int): int
  {
    if plen < 0 then 128 else if ae == 1 then plen + 96 else plen
  }

  /** Octets of the family's own that the length calls for. */
  function Needed(ae: Byte, plen: int): int
  {
    if plen >= 0 then (plen + 7) / 8 else if ae == 1 then 4 else 16
  }

  /** The message has the octets that the length calls for. */
  predicate Legible(ae: Byte, plen: int, omitted: Byte, data: seq<Byte>)
  {
    && Needed(ae, plen) <= 16
    && (ae == 1 ==> plen <= 32 && Needed(1, plen) - omitted <= |data|)
    && (ae == 2 ==> Needed(2, plen) - omitted <= |data|)
    && (ae == 3 ==> Needed(3, plen) - 8 <= |data|)
  }

  /** Octet `k` of the address: from the family, from the default, or from the message. */
  function AddressOctet(ae: Byte, plen: int, omitted: Byte, data: seq<Byte>, dp: Prefix, k: nat): Byte
    requires k < 16 && Legible(ae, plen, omitted, data)
  {
    match ae
    case 1 =>
      if k < 12 then if k < 10 then 0 else 0xFF
      else if k < 12 + omitted then dp[k]
      else if k < 12 + Needed(1, plen) then data[k - 12 - omitted]
      else 0
    case 2 => if k < omitted then dp[k] else if k < Needed(2, plen) then data[k - omitted] else 0
    case 3 =>
      if k == 0 then 0xFE else if k == 1 then 0x80 else if k < 8 then 0
      else if k < Needed(3, plen) then data[k - 8] else 0
    case _ => 0
  }

  /**
    A prefix is refused exactly when its encoding is unknown, its length exceeds the family's, more is
    omitted than there is, the default is of the other family, or octets are missing.
  */
  lemma RefusedExactly(ae: Byte, plen: int, omitted: Byte, data: seq<Byte>, dp: Prefix, len: nat)
    requires plen < 0x100 && len <= |data|
    ensures NetworkPrefix(ae, plen, omitted, data, dp, len) == BadPrefix <==>
      || ae > 3 || plen > 128
      || (ae == 1 && (plen > 32 || omitted > 4 || (omitted > 0 && !V4Mapped(dp)) || len + omitted < Needed(1, plen)))
      || (ae == 2 && (omitted > 16 || (omitted > 0 && V4Mapped(dp)) || len + omitted < Needed(2, plen)))
      || (ae == 3 && len + 8 < Needed(3, plen))
  {
  }

  /** What `network_prefix` puts together before it masks: what is not in the message, and what is. */
  function Head(ae: Byte, omitted: Byte, dp: Prefix): seq<Byte>
    requires (ae == 1 ==> omitted <= 4) && (ae == 2 ==> omitted <= 16)
  {
    if ae == 1 then if omitted > 0 then dp[..12 + omitted] else V4PREFIX
    else if ae == 2 then dp[..omitted]
    else [0xFE, 0x80, 0, 0, 0, 0, 0, 0]
  }

  function Rest(ae: Byte, plen: int, omitted: Byte, data: seq<Byte>): seq<Byte>
    requires Legible(ae, plen, omitted, data) && ae in {1, 2, 3}
  {
    var o: int := if ae == 3 then 8 else omitted;
    if Needed(ae, plen) > o then data[..Needed(ae, plen) - o] else []
  }

  /** What an accepted prefix of one of the three families satisfies. */
  ghost predicate Fits(ae: Byte, plen: int, omitted: Byte, data: seq<Byte>, dp: Prefix)
  {
    && ae in {1, 2, 3} && Legible(ae, plen, omitted, data)
    && (ae == 1 ==> omitted <= 4 && (omitted > 0 ==> V4Mapped(dp))) && (ae == 2 ==> omitted <= 16)
  }

  ghost predicate Accepted(ae: Byte, plen: int, omitted: Byte, data: seq<Byte>, dp: Prefix, len: nat)
  {
    && Fits(ae, plen, omitted, data, dp)
    && plen < 0x100 && len <= |data| && NetworkPrefix(ae, plen, omitted, data, dp, len).Parsed?
  }

  lemma AssembledV4(plen: int, omitted: Byte, data: seq<Byte>, dp: Prefix, len: nat)
    requires Accepted(1, plen, omitted, data, dp, len)
    ensures |Head(1, omitted, dp)| + |Rest(1, plen, omitted, data)| <= 16
    ensures NetworkPrefix(1, plen, omitted, data, dp, len).prefix
         == MaskPrefix(Padded(Head(1, omitted, dp) + Rest(1, plen, omitted, data)), Significant(1, plen))
  {
    var pb, h, t := Needed(1, plen), Head(1, omitted, dp), Rest(1, plen, omitted, data);
    assert pb <= 4 && |h| == 12 + omitted && |t| <= 4 - omitted;
  }

  lemma AssembledV6(plen: int, omitted: Byte, data: seq<Byte>, dp: Prefix, len: nat)
    requires Accepted(2, plen, omitted, data, dp, len)
    ensures |Head(2, omitted, dp)| + |Rest(2, plen, omitted, data)| <= 16
    ensures NetworkPrefix(2, plen, omitted, data, dp, len).prefix
         == MaskPrefix(Padded(Head(2, omitted, dp) + Rest(2, plen, omitted, data)), Significant(2, plen))
  {
  }

  lemma AssembledLocal(plen: int, omitted: Byte, data: seq<Byte>, dp: Prefix, len: nat)
    requires Accepted(3, plen, omitted, data, dp, len)
    ensures |Head(3, omitted, dp)| + |Rest(3, plen, omitted, data)| <= 16
    ensures NetworkPrefix(3, plen, omitted, data, dp, len).prefix
         == MaskPrefix(Padded(Head(3, omitted, dp) + Rest(3, plen, omitted, data)), Significant(3, plen))
  {
  }

  lemma Assembled(ae: Byte, plen: int, omitted: Byte, data: seq<Byte>, dp: Prefix, len: nat)
    requires Accepted(ae, plen, omitted, data, dp, len)
    ensures |Head(ae, omitted, dp)| + |Rest(ae, plen, omitted, data)| <= 16
    ensures NetworkPrefix(ae, plen, omitted, data, dp, len).prefix
         == MaskPrefix(Padded(Head(ae, omitted, dp) + Rest(ae, plen, omitted, data)), Significant(ae, plen))
  {
    match ae {
      case 1 => AssembledV4(plen, omitted, data, dp, len);
      case 2 => AssembledV6(plen, omitted, data, dp, len);
      case 3 => AssembledLocal(plen, omitted, data, dp, len);
    }
  }

  lemma HeadOctet(ae: Byte, plen: int, omitted: Byte, data: seq<Byte>, dp: Prefix, k: nat)
    requires Fits(ae, plen, omitted, data, dp) && k < |Head(ae, omitted, dp)| <= 16
    ensures Head(ae, omitted, dp)[k] == AddressOctet(ae, plen, omitted, data, dp, k)
  {
    if ae == 1 && omitted > 0 && k < 12 { assert dp[..12][k] == V4PREFIX[k]; }
  }

  lemma RestOctet(ae: Byte, plen: int, omitted: Byte, data: seq<Byte>, dp: Prefix, k: nat)
    requires Fits(ae, plen, omitted, data, dp) && |Head(ae, omitted, dp)| <= k < 16
    ensures var h, t := |Head(ae, omitted, dp)|, Rest(ae, plen, omitted, data);
      AddressOctet(ae, plen, omitted, data, dp, k) == if k < h + |t| then t[k - h] else 0
  {
  }

  lemma AddressOctets(ae: Byte, plen: int, omitted: Byte, data: seq<Byte>, dp: Prefix, len: nat, k: nat)
    returns (p: Prefix)
    requires plen < 0x100 && len <= |data| && k < 16 && NetworkPrefix(ae, plen, omitted, data, dp, len).Parsed?
    ensures Legible(ae, plen, omitted, data)
    ensures NetworkPrefix(ae, plen, omitted, data, dp, len).prefix == MaskPrefix(p, Significant(ae, plen))
    ensures p[k] == AddressOctet(ae, plen, omitted, data, dp, k)
  {
    RefusedExactly(ae, plen, omitted, data, dp, len);
    if ae == 0 {
      p := ZEROS;
      assert ZEROS[k] == 0;
    } else {
      var h, t := Head(ae, omitted, dp), Rest(ae, plen, omitted, data);
      Assembled(ae, plen, omitted, data, dp, len);
      p := Padded(h + t);
      PaddedOctet(h, t, k);
      if k < |h| {
        HeadOctet(ae, plen, omitted, data, dp, k);
      } else {
        RestOctet(ae, plen, omitted, data, dp, k);
      }
    }
  }

  lemma PaddedOctet(head: seq<Byte>, tail: seq<Byte>, k: nat)
    requires |head| + |tail| <= 16 && k < 16
    ensures Padded(head + tail)[k]
         == if k < |head| then head[k] else if k < |head| + |tail| then tail[k - |head|] else 0
  {
    if k >= |head| + |tail| { assert ZEROS[|head + tail|..][k - |head + tail|] == 0; }
  }

  /** Bit by bit: as many bits as the length says come from there, the others are 0. */
  lemma NetworkPrefixBits(ae: Byte, plen: int, omitted: Byte, data: seq<Byte>, dp: Prefix, len: nat, i: nat)
    requires plen < 0x100 && len <= |data| && i < 128 && NetworkPrefix(ae, plen, omitted, data, dp, len).Parsed?
    ensures Legible(ae, plen, omitted, data)
    ensures var r := NetworkPrefix(ae, plen, omitted, data, dp, len);
      && r.used == (if ae == 0 then 0 else Needed(ae, plen) - if ae == 3 then 8 else omitted)
      && Bit(r.prefix, i) ==
         if i < Significant(ae, plen) then BitOf(AddressOctet(ae, plen, omitted, data, dp, i / 8), i % 8) else 0
  {
    var p := AddressOctets(ae, plen, omitted, data, dp, len, i / 8);
    MaskPrefixBits(p, Significant(ae, plen), i);
  }
}

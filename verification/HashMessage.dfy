/**
  The octets that BGPsec signatures cover (srx-crypto-api/srxcryptoapi.c).  One
  pass over a BGPsec_PATH attribute lays out a single buffer in which the hash
  input of every signature is a suffix; the reference is the sequence of octets
  of section 4.2 of RFC 8205.
*/
module HashMessage {
  import opened Octets

  const LEN_SECPATH_HDR := 2
  const LEN_SECPATHSEGMENT := 6
  const LEN_SIGBLOCK_HDR := 3
  const LEN_SIGSEGMENT_HDR := 22
  const EXT_LENGTH := 0x10

  // ---------- The attribute ----------

  /** pCount, flags and four octets of AS number; the first in the attribute is the most recent hop. */
  type PathSegment = s: seq<Byte> | |s| == 6 witness [0, 0, 0, 0, 0, 0]

  type AsNumber = s: seq<Byte> | |s| == 4 witness [0, 0, 0, 0]

  /** A signature segment: key identifier, signature length, signature. */
  predicate SigSegment(s: seq<Byte>)
  {
    |s| >= LEN_SIGSEGMENT_HDR && |s| == LEN_SIGSEGMENT_HDR + Get16(s[20..22])
  }

  function Cat(ss: seq<seq<Byte>>): seq<Byte>
  {
    if ss == [] then [] else ss[0] + Cat(ss[1..])
  }

  lemma {:induction false} CatAppend(a: seq<seq<Byte>>, b: seq<seq<Byte>>)
    ensures Cat(a + b) == Cat(a) + Cat(b)
  {
    if a == [] {
      assert a + b == b;
    } else {
      assert (a + b)[1..] == a[1..] + b;
      CatAppend(a[1..], b);
    }
  }

  /** The attribute up to its signature blocks; `len` counts everything after the length field. */
  function Header(flags: Byte, len: U16, segs: seq<PathSegment>): seq<Byte>
    requires 6 * |segs| + 2 < 0x10000 && (flags / EXT_LENGTH % 2 == 0 ==> len < 0x100)
  {
    [flags, 33] + (if flags / EXT_LENGTH % 2 == 0 then [len] else Put16(len)) + Put16(2 + 6 * |segs|) + Cat(segs)
  }

  lemma LengthBit(flags: Byte)
    ensures flags / EXT_LENGTH % 2 == 0 <==> flags % 0x20 < 0x10
  {
  }

  /** Bit 0x10 of the flags makes the length two octets wide; then come the path length and six octets a hop. */
  lemma HeaderShape(flags: Byte, len: U16, segs: seq<PathSegment>)
    requires 6 * |segs| + 2 < 0x10000 && (flags % 0x20 < 0x10 ==> len < 0x100)
    ensures flags / EXT_LENGTH % 2 == 0 ==> len < 0x100
    ensures Header(flags, len, segs) ==
      [flags, 33] + (if flags % 0x20 < 0x10 then [len] else [len / 0x100, len % 0x100])
      + Put16(2 + 6 * |segs|) + Cat(segs)
  {
    LengthBit(flags);
  }

  lemma {:induction false} CatSegments(segs: seq<PathSegment>)
    ensures |Cat(segs)| == 6 * |segs|
    ensures forall i | 0 <= i < |segs| :: Cat(segs)[6 * i..6 * i + 6] == segs[i]
  {
    if segs != [] {
      CatSegments(segs[1..]);
      forall i | 0 <= i < |segs| ensures Cat(segs)[6 * i..6 * i + 6] == segs[i] {
        if i > 0 {
          assert Cat(segs)[6 * i..6 * i + 6] == Cat(segs[1..])[6 * (i - 1)..6 * (i - 1) + 6];
        }
      }
    }
  }

  // ---------- Finding the signature block ----------

  datatype Search = NoBlock | CorruptBlock | Found(block: seq<Byte>)

  /** The two octets that lie in memory after the attribute. */
  type Beyond = s: seq<Byte> | |s| == 2 witness [0, 0]

  /** The block of suite `algo` in the block area. */
  function FindBlock(area: seq<Byte>, beyond: Beyond, algo: Byte): (r: Search)
    ensures r.Found? ==> 0 < |r.block| <= |area|
    decreases |area|
  {
    if area == [] then NoBlock
    else
      var seen := area + beyond;
      var len: nat := Get16(seen[..2]);
      if len > |area| || len == 0 then CorruptBlock
      else if seen[2] == algo then Found(area[..len])
      else FindBlock(area[len..], beyond, algo)
  }

  /** No octet after the attribute decides: the walk ends neither on one octet 0 nor on the two octets of 1 or 2. */
  predicate Settled(area: seq<Byte>, algo: Byte)
    decreases |area|
  {
    if |area| == 0 then true
    else if |area| == 1 then area[0] != 0
    else
      var len: nat := Get16(area[..2]);
      || len > |area| || len == 0
      || (|area| > 2 && (area[2] == algo || Settled(area[len..], algo)))
  }

  lemma {:induction false} SettledSame(area: seq<Byte>, algo: Byte, x: Beyond, y: Beyond)
    requires Settled(area, algo)
    ensures FindBlock(area, x, algo) == FindBlock(area, y, algo)
    decreases |area|
  {
    if |area| == 1 {
      assert (area + x)[..2][0] == area[0] && (area + y)[..2][0] == area[0];
    } else if |area| >= 2 {
      var len: nat := Get16(area[..2]);
      assert (area + x)[..2] == area[..2] && (area + y)[..2] == area[..2];
      if 0 < len <= |area| && area[2] != algo { SettledSame(area[len..], algo, x, y); }
    }
  }

  /** Otherwise some octets make a block of the rest, and others do not. */
  lemma {:induction false} UnsettledDiffers(area: seq<Byte>, algo: Byte) returns (x: Beyond, y: Beyond)
    requires !Settled(area, algo)
    ensures FindBlock(area, x, algo).Found? && !FindBlock(area, y, algo).Found?
    decreases |area|
  {
    var other: Byte := if algo == 0 then 1 else 0;
    if |area| == 1 {
      x, y := [1, algo], [0, 0];
      assert (area + x)[..2] == [0, 1] && (area + y)[..2] == [0, 0];
    } else {
      var len: nat := Get16(area[..2]);
      if |area| > 2 {
        x, y := UnsettledDiffers(area[len..], algo);
      } else if len == 2 {
        x, y := [algo, 0], [other, 0];
        assert area[len..] == [];
      } else {
        x, y := [algo, 0], [other, 0];
        assert area[len..] == [area[1]] && area[1] == 1;
        assert ([area[1]] + y)[..2] == [1, other];
      }
      assert (area + x)[..2] == area[..2] && (area + y)[..2] == area[..2];
    }
  }

  /** What is found is decided by the attribute exactly when the walk is settled. */
  lemma BlockDecided(area: seq<Byte>, algo: Byte)
    ensures Settled(area, algo) <==> forall x: Beyond, y: Beyond :: FindBlock(area, x, algo) == FindBlock(area, y, algo)
  {
    if Settled(area, algo) {
      forall x: Beyond, y: Beyond ensures FindBlock(area, x, algo) == FindBlock(area, y, algo) {
        SettledSame(area, algo, x, y);
      }
    } else {
      var x, y := UnsettledDiffers(area, algo);
    }
  }

  // ---------- The reference: section 4.2 of RFC 8205 ----------

  /**
    What comes between the target AS and the suite identifier, most recent hop first:
    signature segments N-1 .. 1 each before secure path segment N .. 2, then path segment 1.
  */
  function Chain(segs: seq<PathSegment>, sigs: seq<seq<Byte>>): seq<Byte>
    requires |segs| == |sigs| + 1
  {
    if sigs == [] then segs[0] else sigs[0] + segs[0] + Chain(segs[1..], sigs[1..])
  }

  /** What follows the path: the suite identifier and the NLRI. */
  datatype Tail = Tail(algo: Byte, nlri: seq<Byte>) {
    function Octets(): seq<Byte> { [algo] + nlri }
  }

  /** The sequence of octets to be hashed for one signature. */
  function ToBeHashed(target: AsNumber, segs: seq<PathSegment>, sigs: seq<seq<Byte>>, tail: Tail): seq<Byte>
    requires |segs| == |sigs| + 1
  {
    target + Chain(segs, sigs) + tail.Octets()
  }

  /** An in-memory prefix: AFI, SAFI, length and 16 octets of address. */
  type PrefixData = s: seq<Byte> | |s| == 20 && s[3] <= 128 witness seq(20, _ => 0)

  /** AFI, SAFI, length and the significant octets of the prefix. */
  function Nlri(prefix: PrefixData): seq<Byte>
  {
    prefix[..4 + (prefix[3] + 7) / 8]
  }

  // ---------- The layout ----------

  /** The receiving AS, and the hops with a signature for each. */
  datatype Path = Path(myAS: AsNumber, segs: seq<PathSegment>, sigs: seq<seq<Byte>>)
  {
    predicate Valid() { |sigs| == |segs| }

    /** The 6 octets the pass writes after signature `i`: own AS for the first, else the preceding path segment. */
    function Hop(i: nat): PathSegment
      requires i <= |segs|
    {
      if i == 0 then [0, 0] + myAS else segs[i - 1]
    }

    /** The AS that signature `i` was made out to. */
    function Target(i: nat): AsNumber
      requires i <= |segs|
    {
      Hop(i)[2..]
    }

    /** The buffer after `n` rounds of the loop. */
    function Written(n: nat): seq<Byte>
      requires Valid() && n <= |sigs|
    {
      if n == 0 then [0, 0, 0, 0] else Written(n - 1) + sigs[n - 1] + Hop(n - 1)
    }

    /** The whole buffer. */
    function Layout(tail: Tail): seq<Byte>
      requires Valid() && segs != []
    {
      Written(|segs|) + segs[|segs| - 1] + tail.Octets()
    }

    /** Where the hash input of signature `i` starts. */
    function SliceStart(i: nat): nat
      requires Valid() && i < |sigs|
    {
      |Written(i)| + |sigs[i]| + 2
    }

    /** What section 4.2 of RFC 8205 prescribes for signature `i`. */
    function Prescribed(i: nat, tail: Tail): seq<Byte>
      requires Valid() && i < |sigs|
    {
      ToBeHashed(Target(i), segs[i..], sigs[i + 1..], tail)
    }
  }

  /** The buffer starts with room for the next target, the first signature, and the own hop without flags. */
  lemma BufferStart(p: Path, tail: Tail)
    requires p.Valid() && p.segs != []
    ensures var start := [0, 0, 0, 0] + p.sigs[0] + [0, 0] + p.myAS;
      |p.Layout(tail)| >= |start| && p.Layout(tail)[..|start|] == start
  {
    LayoutSplits(p, tail, 1);
    assert p.Written(0) == [0, 0, 0, 0] && p.Written(1) == [0, 0, 0, 0] + p.sigs[0] + ([0, 0] + p.myAS);
  }

  lemma Reassociate(w: seq<Byte>, sig: seq<Byte>, hop: seq<Byte>, rest: seq<Byte>, end: seq<Byte>)
    ensures w + sig + hop + (rest + end) == w + ((sig + hop + rest) + end)
  {
  }

  lemma ChainStep(segs: seq<PathSegment>, sigs: seq<seq<Byte>>, i: nat)
    requires |sigs| == |segs| && 1 <= i < |segs|
    ensures Chain(segs[i - 1..], sigs[i..]) == sigs[i] + segs[i - 1] + Chain(segs[i..], sigs[i + 1..])
  {
    assert segs[i - 1..][1..] == segs[i..] && sigs[i..][1..] == sigs[i + 1..];
  }

  /** From any round on, the rest of the buffer is the chain of the older hops. */
  lemma {:induction false} LayoutSplits(p: Path, tail: Tail, i: nat)
    requires p.Valid() && 1 <= i <= |p.segs|
    ensures p.Layout(tail) == p.Written(i) + (Chain(p.segs[i - 1..], p.sigs[i..]) + tail.Octets())
    decreases |p.segs| - i
  {
    if i == |p.segs| {
      assert p.segs[i - 1..] == [p.segs[i - 1]] && p.sigs[i..] == [];
    } else {
      LayoutSplits(p, tail, i + 1);
      ChainStep(p.segs, p.sigs, i);
      Reassociate(p.Written(i), p.sigs[i], p.segs[i - 1], Chain(p.segs[i..], p.sigs[i + 1..]), tail.Octets());
    }
  }

  /** Every hash input is the suffix of the one buffer from its start on. */
  lemma SliceIsToBeHashed(p: Path, tail: Tail, i: nat)
    requires p.Valid() && i < |p.sigs|
    ensures p.SliceStart(i) <= |p.Layout(tail)| && p.Layout(tail)[p.SliceStart(i)..] == p.Prescribed(i, tail)
  {
    LayoutSplits(p, tail, i + 1);
    var w, hop := p.Written(i) + p.sigs[i], p.Hop(i);
    var rest := Chain(p.segs[i..], p.sigs[i + 1..]) + tail.Octets();
    assert hop == hop[..2] + hop[2..];
    assert p.Layout(tail) == (w + hop[..2]) + (hop[2..] + rest);
    assert |w + hop[..2]| == p.SliceStart(i);
    assert hop[2..] + rest == ToBeHashed(hop[2..], p.segs[i..], p.sigs[i + 1..], tail);
  }

  lemma {:induction false} WrittenSize(p: Path, n: nat)
    requires p.Valid() && n <= |p.sigs|
    ensures |p.Written(n)| == 4 + 6 * n + |Cat(p.sigs[..n])|
  {
    var sigs := p.sigs;
    if n > 0 {
      WrittenSize(p, n - 1);
      assert sigs[..n] == sigs[..n - 1] + [sigs[n - 1]];
      CatAppend(sigs[..n - 1], [sigs[n - 1]]);
      assert Cat([sigs[n - 1]]) == sigs[n - 1] + [];
    } else {
      assert sigs[..0] == [];
    }
  }

  lemma LayoutSize(p: Path, tail: Tail)
    requires p.Valid() && p.segs != []
    ensures |p.Layout(tail)| == 4 + 6 * (|p.segs| + 1) + |Cat(p.sigs)| + 1 + |tail.nlri|
  {
    WrittenSize(p, |p.segs|);
    assert p.sigs[..|p.segs|] == p.sigs;
  }

  // ---------- The buffer ----------

  function Zeros(n: nat): (z: seq<Byte>)
    ensures |z| == n && forall i | 0 <= i < n :: z[i] == 0
  {
    seq(n, _ => 0)
  }

  /** What has been written to a buffer of zeros. */
  ghost predicate Filled(b: seq<Byte>, w: seq<Byte>) { |w| <= |b| && b == w + Zeros(|b| - |w|) }

  lemma FilledMore(b: seq<Byte>, w: seq<Byte>, s: seq<Byte>, c: seq<Byte>)
    requires Filled(b, w) && |w| + |s| <= |b| && c == b[..|w|] + s + b[|w| + |s|..]
    ensures Filled(c, w + s)
  {
    assert b[..|w|] == w && b[|w| + |s|..] == Zeros(|b| - |w| - |s|);
  }

  /** `memcpy` into the buffer. */
  method CopyTo(buf: array<Byte>, at: nat, s: seq<Byte>)
    requires at + |s| <= buf.Length
    modifies buf
    ensures buf[..] == old(buf[..at]) + s + old(buf[at + |s|..])
  {
    var i := 0;
    while i < |s|
      invariant 0 <= i <= |s|
      invariant buf[..at] == old(buf[..at]) && buf[at..at + i] == s[..i] && buf[at + |s|..] == old(buf[at + |s|..])
    {
      buf[at + i] := s[i];
      i := i + 1;
    }
    assert buf[..] == buf[..at] + buf[at..at + |s|] + buf[at + |s|..];
  }

  /** `memcpy` where the buffer has been filled to. */
  method Append(buf: array<Byte>, used: nat, s: seq<Byte>, ghost w: seq<Byte>)
    requires Filled(buf[..], w) && used == |w| && used + |s| <= buf.Length
    modifies buf
    ensures Filled(buf[..], w + s)
  {
    ghost var b := buf[..];
    CopyTo(buf, used, s);
    assert b[..used] == old(buf[..used]) && b[used + |s|..] == old(buf[used + |s|..]);
    FilledMore(b, w, s, buf[..]);
  }

  // ---------- sca_generateHashMessage ----------

  /** Offsets into the buffer: the signature, and the hash input with its length. */
  datatype Slice = Slice(signature: nat, start: nat, length: int)

  datatype Outcome =
    | NoData                                                       // API_STATUS_ERR_NO_DATA
    | AlreadyThere                                                 // API_STATUS_INFO_USER1
    | Unusable                                                     // API_STATUS_ERR_USER1
    | Message(buffer: seq<Byte>, slices: seq<Slice>, used: int)    // API_STATUS_OK

  /** The loop over the signature blocks. */
  method LocateBlock(attr: seq<Byte>, beyond: Beyond, from: nat, length: nat, algo: Byte)
    returns (found: bool, at: nat, len: nat)
    requires from + length == |attr|
    ensures found == FindBlock(attr[from..], beyond, algo).Found?
    ensures found ==>
      from <= at && at + len <= |attr| && attr[at..at + len] == FindBlock(attr[from..], beyond, algo).block
  {
    at := from;
    var remainder: int := length;
    while remainder != 0
      invariant from <= at && 0 <= remainder && at + remainder == |attr|
      invariant FindBlock(attr[from..], beyond, algo) == FindBlock(attr[at..], beyond, algo)
      decreases remainder
    {
      var rest := attr[at..];
      var seen := rest + beyond;
      len := Get16(seen[..2]);
      if len > remainder || len == 0 { return false, at, 0; }
      remainder := remainder - len;
      if seen[2] != algo {
        assert rest[len..] == attr[at + len..];
        at := at + len;
        continue;
      }
      assert rest[..len] == attr[at..at + len];
      return true, at, len;
    }
    assert attr[at..] == [];
    return false, at, 0;
  }

  lemma {:induction false} CatAt(ss: seq<seq<Byte>>, i: nat)
    requires i < |ss|
    ensures |Cat(ss[..i])| + |ss[i]| == |Cat(ss[..i + 1])| <= |Cat(ss)|
    ensures Cat(ss)[|Cat(ss[..i])|..|Cat(ss[..i + 1])|] == ss[i]
  {
    assert ss == ss[..i] + ([ss[i]] + ss[i + 1..]);
    CatAppend(ss[..i], [ss[i]] + ss[i + 1..]);
    CatAppend([ss[i]], ss[i + 1..]);
    assert Cat([ss[i]]) == ss[i] + [];
    assert ss[..i + 1] == ss[..i] + [ss[i]];
    CatAppend(ss[..i], [ss[i]]);
  }

  /** The slice that round `i` records in a buffer of `size` octets. */
  function SliceAt(p: Path, size: int, i: nat): Slice
    requires p.Valid() && i < |p.sigs|
  {
    Slice(|p.Written(i)|, p.SliceStart(i), size - p.SliceStart(i))
  }

  /** The slices that the first `n` rounds record. */
  function Slices(p: Path, size: int, n: nat): (ss: seq<Slice>)
    requires p.Valid() && n <= |p.sigs|
    ensures |ss| == n
  {
    if n == 0 then [] else Slices(p, size, n - 1) + [SliceAt(p, size, n - 1)]
  }

  lemma {:induction false} SlicesAt(p: Path, size: int, n: nat, i: nat)
    requires p.Valid() && i < n <= |p.sigs|
    ensures Slices(p, size, n)[i] == SliceAt(p, size, i)
  {
    if i < n - 1 { SlicesAt(p, size, n - 1, i); }
  }

  lemma RoundStep(p: Path, n: nat)
    requires p.Valid() && n < |p.sigs|
    ensures p.Written(n + 1) == p.Written(n) + p.sigs[n] + p.Hop(n)
    ensures |p.Written(n + 1)| == |p.Written(n)| + |p.sigs[n]| + 6
    ensures p.SliceStart(n) == |p.Written(n)| + |p.sigs[n]| + 2
  {
  }

  lemma SliceSlice(s: seq<Byte>, a: nat, b: nat, c: nat, d: nat)
    requires a <= b <= |s| && c <= d <= b - a
    ensures s[a..b][c..d] == s[a + c..a + d]
  {
    assert forall k | 0 <= k < d - c :: s[a..b][c..d][k] == s[a + c..a + d][k];
  }

  /** One round: the signature segment, then own AS or the next path segment. */
  method LayRound(buf: array<Byte>, used: nat, sig: seq<Byte>, hop: seq<Byte>, ghost w: seq<Byte>)
    requires Filled(buf[..], w) && used == |w| && used + |sig| + |hop| <= buf.Length
    modifies buf
    ensures Filled(buf[..], w + sig + hop)
  {
    Append(buf, used, sig, w);
    Append(buf, used + |sig|, hop, w + sig);
  }

  /** The attribute holds the signature segments from `sigAt` and the path segments from `pathAt`. */
  ghost predicate Holds(attr: seq<Byte>, sigAt: nat, pathAt: nat, p: Path)
  {
    && p.Valid() && p.segs != [] && (forall s <- p.sigs :: SigSegment(s))
    && sigAt + |Cat(p.sigs)| <= |attr| && attr[sigAt..sigAt + |Cat(p.sigs)|] == Cat(p.sigs)
    && HoldsSegments(attr, pathAt, p.segs)
  }

  ghost predicate HoldsSegments(attr: seq<Byte>, pathAt: nat, segs: seq<PathSegment>)
  {
    && pathAt + 6 * |segs| <= |attr|
    && forall i | 0 <= i < |segs| :: attr[pathAt + 6 * i..pathAt + 6 * i + 6] == segs[i]
  }

  lemma ReadSignature(attr: seq<Byte>, sigAt: nat, pathAt: nat, p: Path, i: nat)
    requires Holds(attr, sigAt, pathAt, p) && i < |p.sigs|
    ensures var at, sig := sigAt + |Cat(p.sigs[..i])|, p.sigs[i];
      && at + 22 <= at + |sig| <= |attr| && attr[at..at + |sig|] == sig
      && LEN_SIGSEGMENT_HDR + Get16(attr[at + 20..at + 22]) == |sig|
      && sigAt + |Cat(p.sigs[..i + 1])| == at + |sig|
  {
    CatAt(p.sigs, i);
    var at, sig := sigAt + |Cat(p.sigs[..i])|, p.sigs[i];
    assert sig in p.sigs;
    SliceSlice(attr, sigAt, sigAt + |Cat(p.sigs)|, at - sigAt, at - sigAt + |sig|);
    SliceSlice(attr, at, at + |sig|, 20, 22);
  }

  /** Where the two pointers of the pass stand before round `n`. */
  ghost predicate Pointing(sigPtr: nat, pathPtr: nat, sigAt: nat, pathAt: nat, p: Path, n: nat)
  {
    n <= |p.sigs| && sigPtr == sigAt + |Cat(p.sigs[..n])| && pathPtr == pathAt + 6 * (if n == 0 then 0 else n - 1)
  }

  /** What one iteration of the pass reads. */
  method ReadRound(attr: seq<Byte>, segment: nat, sigPtr: nat, pathPtr: nat, myAS: AsNumber,
                   ghost sigAt: nat, ghost pathAt: nat, ghost p: Path)
    returns (sig: seq<Byte>, hop: seq<Byte>)
    requires Holds(attr, sigAt, pathAt, p) && p.myAS == myAS && segment < |p.segs|
    requires Pointing(sigPtr, pathPtr, sigAt, pathAt, p, segment)
    ensures sig == p.sigs[segment] && hop == p.Hop(segment)
    ensures Pointing(sigPtr + |sig|, if segment != 0 then pathPtr + 6 else pathPtr, sigAt, pathAt, p, segment + 1)
  {
    ReadSignature(attr, sigAt, pathAt, p, segment);
    var dataLength := LEN_SIGSEGMENT_HDR + Get16(attr[sigPtr + 20..sigPtr + 22]);
    sig := attr[sigPtr..sigPtr + dataLength];
    hop := if segment != 0 then attr[pathPtr..pathPtr + 6] else [0, 0] + myAS;
  }

  /** What the pass has written and recorded before round `n`. */
  ghost predicate Laid(b: seq<Byte>, used: nat, slices: seq<Slice>, p: Path, n: nat)
    requires p.Valid() && n <= |p.sigs|
  {
    Filled(b, p.Written(n)) && used == |p.Written(n)| && slices == Slices(p, |b|, n)
  }

  lemma SlicesMore(p: Path, size: int, n: nat, s: Slice)
    requires p.Valid() && n < |p.sigs| && s == SliceAt(p, size, n)
    ensures Slices(p, size, n) + [s] == Slices(p, size, n + 1)
  {
  }

  /** One iteration: read and lay out. */
  method OneRound(attr: seq<Byte>, segment: nat, sigPtr: nat, pathPtr: nat, myAS: AsNumber, buf: array<Byte>,
                  used: nat, slices: seq<Slice>, ghost sigAt: nat, ghost pathAt: nat, ghost p: Path)
    returns (sigPtr': nat, pathPtr': nat, used': nat, slices': seq<Slice>)
    requires Holds(attr, sigAt, pathAt, p) && p.myAS == myAS && segment < |p.segs|
    requires Pointing(sigPtr, pathPtr, sigAt, pathAt, p, segment)
    requires Laid(buf[..], used, slices, p, segment) && |p.Written(segment + 1)| <= buf.Length
    modifies buf
    ensures Pointing(sigPtr', pathPtr', sigAt, pathAt, p, segment + 1)
    ensures Laid(buf[..], used', slices', p, segment + 1)
  {
    RoundStep(p, segment);
    var sig, hop := ReadRound(attr, segment, sigPtr, pathPtr, myAS, sigAt, pathAt, p);
    var start := used + |sig| + 2;
    SlicesMore(p, buf.Length, segment, Slice(used, start, buf.Length - start));
    slices' := slices + [Slice(used, start, buf.Length - start)];
    LayRound(buf, used, sig, hop, p.Written(segment));
    assert Filled(buf[..], p.Written(segment + 1));
    sigPtr', used' := sigPtr + |sig|, used + |sig| + 6;
    pathPtr' := if segment != 0 then pathPtr + 6 else pathPtr;
  }

  /** The loop over the signature and path segments. */
  method LayRounds(attr: seq<Byte>, sigAt: nat, pathAt: nat, myAS: AsNumber, buf: array<Byte>, segments: nat,
                   ghost p: Path)
    returns (used: nat, pathPtr: nat, slices: seq<Slice>)
    requires Holds(attr, sigAt, pathAt, p) && p.myAS == myAS && segments == |p.segs|
    requires |p.Written(segments)| <= buf.Length && Filled(buf[..], p.Written(0))
    modifies buf
    ensures Laid(buf[..], used, slices, p, segments)
    ensures pathPtr == pathAt + 6 * (segments - 1)
  {
    var segment, sigPtr := 0, sigAt;
    used, pathPtr, slices := 4, pathAt, [];
    assert p.sigs[..0] == [];
    while segment < segments
      invariant 0 <= segment <= segments
      invariant Pointing(sigPtr, pathPtr, sigAt, pathAt, p, segment)
      invariant Laid(buf[..], used, slices, p, segment)
    {
      WrittenGrows(p, segment + 1, segments);
      sigPtr, pathPtr, used, slices :=
        OneRound(attr, segment, sigPtr, pathPtr, myAS, buf, used, slices, sigAt, pathAt, p);
      segment := segment + 1;
    }
  }

  lemma {:induction false} WrittenGrows(p: Path, i: nat, n: nat)
    requires p.Valid() && i <= n <= |p.sigs|
    ensures 4 <= |p.Written(i)| <= |p.Written(n)|
    decreases n
  {
    if i < n {
      WrittenGrows(p, i, n - 1);
    } else if n > 0 {
      WrittenGrows(p, n - 1, n - 1);
    }
  }

  /** The pass: allocate, lay out, finish; octets that the size allows for and nothing fills stay 0. */
  method LayOut(attr: seq<Byte>, sigAt: nat, pathAt: nat, algo: Byte, myAS: AsNumber, prefix: PrefixData, size: nat,
                segments: nat, ghost p: Path)
    returns (r: Outcome)
    requires Holds(attr, sigAt, pathAt, p) && p.myAS == myAS && segments == |p.segs|
    requires |p.Layout(Tail(algo, Nlri(prefix)))| <= size
    ensures r.Message? && Filled(r.buffer, p.Layout(Tail(algo, Nlri(prefix)))) && |r.buffer| == size
    ensures r.slices == Slices(p, size, segments) && r.used == |p.Layout(Tail(algo, Nlri(prefix)))|
  {
    var buf := new Byte[size](_ => 0);
    WrittenGrows(p, 0, segments);
    assert Filled(buf[..], p.Written(0));
    var used, pathPtr, slices := LayRounds(attr, sigAt, pathAt, myAS, buf, segments, p);
    assert attr[pathPtr..pathPtr + 6] == p.segs[segments - 1];
    used := LayEnd(buf, used, attr[pathPtr..pathPtr + 6], algo, prefix, p.Written(segments));
    r := Message(buf[..], slices, used);
  }

  /** The origin's path segment, the suite and the NLRI. */
  method LayEnd(buf: array<Byte>, used: nat, seg: PathSegment, algo: Byte, prefix: PrefixData, ghost w: seq<Byte>)
    returns (used': nat)
    requires Filled(buf[..], w) && used == |w| && |w + seg + Tail(algo, Nlri(prefix)).Octets()| <= buf.Length
    modifies buf
    ensures Filled(buf[..], w + seg + Tail(algo, Nlri(prefix)).Octets())
    ensures used' == |w + seg + Tail(algo, Nlri(prefix)).Octets()|
  {
    var prefixBLen := (prefix[3] + 7) / 8;
    LayRound(buf, used, seg, [algo] + prefix[..4 + prefixBLen], w);
    used' := used + 6 + 1 + prefixBLen + 4;
  }

  /** A BGPsec_PATH attribute with at least one hop; `area` holds the signature blocks. */
  ghost predicate WellFormed(attr: seq<Byte>, flags: Byte, segs: seq<PathSegment>, area: seq<Byte>)
  {
    var len := 2 + 6 * |segs| + |area|;
    && |segs| > 0 && len < 0x10000 && (flags / EXT_LENGTH % 2 == 0 ==> len < 0x100)
    && attr == Header(flags, len, segs) + area
  }

  /** The block of the wanted suite, if there is one, has a signature for every hop, and maybe more. */
  ghost predicate BlockFits(f: Search, segs: seq<PathSegment>, sigs: seq<seq<Byte>>)
  {
    f.Found? ==>
      && |f.block| >= LEN_SIGBLOCK_HDR && f.block[LEN_SIGBLOCK_HDR..] == Cat(sigs)
      && |sigs| >= |segs| && forall s <- sigs :: SigSegment(s)
  }

  /** The length field, and where the secure path begins. */
  method ReadLength(attr: seq<Byte>, ghost flags: Byte, ghost len: U16, ghost tail: seq<Byte>)
    returns (total: U16, pos: nat)
    requires flags / EXT_LENGTH % 2 == 0 ==> len < 0x100
    requires attr == [flags, 33] + (if flags / EXT_LENGTH % 2 == 0 then [len] else Put16(len)) + tail
    ensures total == len && pos <= |attr| && attr[pos..] == tail
  {
    assert attr[0] == flags;
    if attr[0] / EXT_LENGTH % 2 == 0 {
      return attr[2], 3;
    } else {
      assert attr[2..4] == Put16(len);
      return Get16(attr[2..4]), 4;
    }
  }

  /** Reading the attribute header: number of hops, and where path and blocks are. */
  method ReadHeader(attr: seq<Byte>, ghost flags: Byte, ghost segs: seq<PathSegment>, ghost area: seq<Byte>)
    returns (segments: nat, pathAt: nat, blocksAt: nat, remainder: nat)
    requires WellFormed(attr, flags, segs, area)
    ensures segments == |segs| && blocksAt + remainder == |attr| && attr[blocksAt..] == area
    ensures HoldsSegments(attr, pathAt, segs)
  {
    ghost var len := 2 + 6 * |segs| + |area|;
    CatSegments(segs);
    ghost var tail := Put16(2 + 6 * |segs|) + Cat(segs) + area;
    assert attr == [flags, 33] + (if flags / EXT_LENGTH % 2 == 0 then [len] else Put16(len)) + tail;
    var total, pos := ReadLength(attr, flags, len, tail);
    assert attr[pos..pos + 2] == tail[..2] == Put16(2 + 6 * |segs|);
    var secPathLen: int := Get16(attr[pos..pos + 2]);
    segments := secPathLen / LEN_SECPATHSEGMENT;
    pathAt := pos + LEN_SECPATH_HDR;
    remainder := total - LEN_SECPATH_HDR - (secPathLen - LEN_SECPATH_HDR);
    blocksAt := pathAt + (secPathLen - LEN_SECPATH_HDR);
    assert attr[pathAt..blocksAt] == tail[2..2 + 6 * |segs|] == Cat(segs);
    assert attr[blocksAt..] == tail[2 + 6 * |segs|..] == area;
    SegmentsHeld(attr, pathAt, blocksAt, segs);
  }

  lemma SegmentsHeld(attr: seq<Byte>, pathAt: nat, end: nat, segs: seq<PathSegment>)
    requires pathAt <= end <= |attr| && attr[pathAt..end] == Cat(segs)
    ensures HoldsSegments(attr, pathAt, segs)
  {
    CatSegments(segs);
    forall i | 0 <= i < |segs| ensures attr[pathAt + 6 * i..pathAt + 6 * i + 6] == segs[i] {
      SliceSlice(attr, pathAt, end, 6 * i, 6 * i + 6);
    }
  }

  /** Hash input `i` is the prescribed one and `extra` zeros, up to the end; the signature is where it says. */
  ghost predicate SliceGood(r: Outcome, p: Path, tail: Tail, extra: nat, i: nat)
    requires r.Message? && p.Valid() && i < |r.slices| == |p.sigs|
  {
    var s := r.slices[i];
    && s.start + s.length == |r.buffer| && s.length >= 0
    && r.buffer[s.start..] == p.Prescribed(i, tail) + Zeros(extra)
    && s.signature + |p.sigs[i]| <= |r.buffer|
    && r.buffer[s.signature..s.signature + |p.sigs[i]|] == p.sigs[i]
  }

  lemma SuffixOf(b: seq<Byte>, l: seq<Byte>, z: seq<Byte>, from: nat)
    requires b == l + z && from <= |l|
    ensures b[from..] == l[from..] + z
  {
  }

  lemma SliceIsGood(r: Outcome, p: Path, tail: Tail, extra: nat, i: nat)
    requires p.Valid() && i < |p.sigs| && r.Message? && r.buffer == p.Layout(tail) + Zeros(extra)
    requires r.slices == Slices(p, |r.buffer|, |p.sigs|)
    ensures SliceGood(r, p, tail, extra, i)
  {
    SliceIsToBeHashed(p, tail, i);
    SlicesAt(p, |r.buffer|, |p.sigs|, i);
    SuffixOf(r.buffer, p.Layout(tail), Zeros(extra), p.SliceStart(i));
    SignatureAt(p, tail, i);
    var w := |p.Written(i)|;
    assert r.buffer[w..w + |p.sigs[i]|] == p.Layout(tail)[w..w + |p.sigs[i]|];
  }

  lemma InTheMiddle(a: seq<Byte>, b: seq<Byte>, c: seq<Byte>)
    ensures (a + b + c)[|a|..|a| + |b|] == b
  {
  }

  lemma SignatureAt(p: Path, tail: Tail, i: nat)
    requires p.Valid() && i < |p.sigs|
    ensures var w := |p.Written(i)|;
      w + |p.sigs[i]| <= |p.Layout(tail)| && p.Layout(tail)[w..w + |p.sigs[i]|] == p.sigs[i]
  {
    LayoutSplits(p, tail, i + 1);
    var w, sig, hop, rest := p.Written(i), p.sigs[i], p.Hop(i), Chain(p.segs[i..], p.sigs[i + 1..]) + tail.Octets();
    assert p.Layout(tail) == w + sig + (hop + rest) by {
      RoundStep(p, i);
      Split(w + sig, hop, rest);
    }
    InTheMiddle(w, sig, hop + rest);
  }

  lemma Split(a: seq<Byte>, b: seq<Byte>, c: seq<Byte>)
    ensures a + b + c == a + (b + c)
  {
  }

  /** From the located block on; `more` are the octets of signatures beyond the last hop. */
  method BuildMessage(attr: seq<Byte>, at: nat, len: nat, pathAt: nat, segments: nat, algo: Byte, myAS: AsNumber,
                      prefix: PrefixData, ghost p: Path, ghost more: nat)
    returns (r: Outcome)
    requires len == LEN_SIGBLOCK_HDR + |Cat(p.sigs)| + more && Holds(attr, at + LEN_SIGBLOCK_HDR, pathAt, p)
    requires p.myAS == myAS && segments == |p.segs|
    ensures r.Message? && r.buffer == p.Layout(Tail(algo, Nlri(prefix))) + Zeros(more) && |r.slices| == |p.segs|
    ensures r.used == |p.Layout(Tail(algo, Nlri(prefix)))|
    ensures forall i | 0 <= i < |p.segs| :: SliceGood(r, p, Tail(algo, Nlri(prefix)), more, i)
  {
    var prefixBLen := (prefix[3] + 7) / 8;
    var size := 4 + (segments + 1) * LEN_SECPATHSEGMENT + (len - LEN_SIGBLOCK_HDR) + 1 + 4 + prefixBLen;
    ghost var tail := Tail(algo, Nlri(prefix));
    LayoutSize(p, tail);
    r := LayOut(attr, at + LEN_SIGBLOCK_HDR, pathAt, algo, myAS, prefix, size, segments, p);
    forall i | 0 <= i < |p.segs| ensures SliceGood(r, p, tail, more, i) {
      SliceIsGood(r, p, tail, more, i);
    }
  }

  /** The signatures that the pass uses, and how many octets of the block are left over. */
  lemma FirstSignatures(sigs: seq<seq<Byte>>, n: nat)
    requires n <= |sigs| && forall s <- sigs :: SigSegment(s)
    ensures Cat(sigs) == Cat(sigs[..n]) + Cat(sigs[n..]) && (Cat(sigs[n..]) == [] <==> |sigs| == n)
  {
    assert sigs == sigs[..n] + sigs[n..];
    CatAppend(sigs[..n], sigs[n..]);
    if n < |sigs| { assert sigs[n..][0] in sigs; }
  }

  lemma BlockHolds(attr: seq<Byte>, at: nat, len: nat, block: seq<Byte>, body: seq<Byte>, rest: seq<Byte>)
    requires at + len <= |attr| && attr[at..at + len] == block
    requires len >= LEN_SIGBLOCK_HDR && block[LEN_SIGBLOCK_HDR..] == body + rest
    ensures len == LEN_SIGBLOCK_HDR + |body| + |rest|
    ensures attr[at + LEN_SIGBLOCK_HDR..at + LEN_SIGBLOCK_HDR + |body|] == body
  {
    SliceSlice(attr, at, at + len, LEN_SIGBLOCK_HDR, LEN_SIGBLOCK_HDR + |body|);
    assert block[LEN_SIGBLOCK_HDR..][..|body|] == body;
  }

  /** All hash inputs of a message are those of section 4.2 of RFC 8205. */
  ghost predicate AllPrescribed(r: Outcome, p: Path, tail: Tail)
    requires r.Message? && p.Valid() && |r.slices| == |p.sigs|
  {
    forall i | 0 <= i < |p.sigs| ::
      r.slices[i].start <= |r.buffer| && r.buffer[r.slices[i].start..] == p.Prescribed(i, tail)
  }

  lemma PrescribedOnly(r: Outcome, p: Path, tail: Tail, extra: nat)
    requires r.Message? && p.Valid() && |r.slices| == |p.sigs| > 0
    requires forall i | 0 <= i < |p.sigs| :: SliceGood(r, p, tail, extra, i)
    ensures AllPrescribed(r, p, tail) <==> extra == 0
  {
    assert SliceGood(r, p, tail, extra, 0);
    if extra == 0 {
      forall i | 0 <= i < |p.sigs|
        ensures r.slices[i].start <= |r.buffer| && r.buffer[r.slices[i].start..] == p.Prescribed(i, tail)
      {
        assert SliceGood(r, p, tail, extra, i);
        assert p.Prescribed(i, tail) + Zeros(0) == p.Prescribed(i, tail);
      }
    } else {
      assert |r.buffer[r.slices[0].start..]| > |p.Prescribed(0, tail)|;
    }
  }

  /**
    `sca_generateHashMessage`.  With a usable block, the hash input recorded for every
    signature is a suffix of the one buffer: the octets that section 4.2 of RFC 8205
    prescribes, and a zero for every octet of signatures in excess of the hops.  So all are
    as prescribed, and the computed size is used up, exactly when there is one signature for
    every hop.  Without a usable block the result is an error.
  */
  method GenerateHashMessage(haveMessage: bool, haveAttr: bool, attr: seq<Byte>, beyond: Beyond, algo: Byte,
                             myAS: AsNumber, prefix: PrefixData,
                             ghost flags: Byte, ghost segs: seq<PathSegment>, ghost area: seq<Byte>,
                             ghost sigs: seq<seq<Byte>>)
    returns (r: Outcome)
    requires haveAttr && !haveMessage ==>
      WellFormed(attr, flags, segs, area) && BlockFits(FindBlock(area, beyond, algo), segs, sigs)
    ensures r == NoData <==> !haveAttr
    ensures r == AlreadyThere <==> haveAttr && haveMessage
    ensures r == Unusable <==> haveAttr && !haveMessage && !FindBlock(area, beyond, algo).Found?
    ensures r.Message? ==> |r.slices| == |segs| <= |sigs| && 0 < |segs|
    ensures r.Message? ==>
      var p, tail, more := Path(myAS, segs, sigs[..|segs|]), Tail(algo, Nlri(prefix)), |Cat(sigs[|segs|..])|;
      && r.buffer == p.Layout(tail) + Zeros(more) && (forall i | 0 <= i < |segs| :: SliceGood(r, p, tail, more, i))
      && (AllPrescribed(r, p, tail) <==> |sigs| == |segs|) && (r.used == |r.buffer| <==> |sigs| == |segs|)
  {
    if !haveAttr { return NoData; }
    if haveMessage { return AlreadyThere; }
    var segments, pathAt, blocksAt, remainder := ReadHeader(attr, flags, segs, area);
    var found, at, len := LocateBlock(attr, beyond, blocksAt, remainder, algo);
    if !found { return Unusable; }
    ghost var p, more := Path(myAS, segs, sigs[..|segs|]), Cat(sigs[|segs|..]);
    FirstSignatures(sigs, |segs|);
    BlockHolds(attr, at, len, FindBlock(area, beyond, algo).block, Cat(p.sigs), more);
    r := BuildMessage(attr, at, len, pathAt, segments, algo, myAS, prefix, p, |more|);
    PrescribedOnly(r, p, Tail(algo, Nlri(prefix)), |more|);
  }

  /** A block that fits with a signature too many: one hop, two signature segments, 22 zeros hashed in excess. */
  lemma ExtraSignature()
    ensures var sigs: seq<seq<Byte>> := [Zeros(22), Zeros(22)];
      var area, segs := [0, 47, 1] + Cat(sigs), [Zeros(6)];
      && FindBlock(area, [0, 0], 1) == Found(area) && BlockFits(Found(area), segs, sigs)
      && |sigs| > |segs| && |Cat(sigs[|segs|..])| == 22
  {
    var sigs: seq<seq<Byte>> := [Zeros(22), Zeros(22)];
    var area := [0, 47, 1] + Cat(sigs);
    assert sigs[1..] == [Zeros(22)] && Cat([Zeros(22)]) == Zeros(22) + [];
    assert |Cat(sigs)| == 44;
    assert (area + [0, 0])[..2] == [0, 47] && area[..47] == area;
    assert area[LEN_SIGBLOCK_HDR..] == Cat(sigs);
  }

  // ---------- sca_generateOriginHashMessage ----------

  /** `sca_generateOriginHashMessage`: target AS, own path segment, suite, NLRI. */
  method GenerateOriginHashMessage(targetAS: AsNumber, spSeg: PathSegment, prefix: PrefixData, algo: Byte)
    returns (r: seq<Byte>)
    ensures r == ToBeHashed(targetAS, [spSeg], [], Tail(algo, Nlri(prefix)))
  {
    var nlriLen := (prefix[3] + 7) / 8 + 4;
    var buf := new Byte[4 + LEN_SECPATHSEGMENT + 1 + nlriLen](_ => 0);
    assert Filled(buf[..], []);
    Append(buf, 0, targetAS, []);
    assert [] + targetAS == targetAS;
    LayRound(buf, 4, spSeg, [algo] + prefix[..nlriLen], targetAS);
    r := buf[..];
  }

  /**
    What the originator signs is what any validator down the path hashes for the origin's
    signature: the last slice, when the target, segment, suite and NLRI agree.
  */
  lemma OriginSignsLastSlice(p: Path, tail: Tail)
    requires p.Valid() && p.segs != []
    ensures var last, l := |p.segs| - 1, p.Layout(tail);
      && p.SliceStart(last) <= |l|
      && l[p.SliceStart(last)..] == ToBeHashed(p.Target(last), [p.segs[last]], [], tail)
  {
    var last := |p.segs| - 1;
    SliceIsToBeHashed(p, tail, last);
    assert p.segs[last..] == [p.segs[last]] && p.sigs[last + 1..] == [];
  }
}

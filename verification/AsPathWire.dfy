/**
  AS paths on the wire (assegments_parse and aspath_put in
  quagga-srx/bgpd/bgp_aspath.c), with 4-octet and with 2-octet AS numbers.
*/
module AsPathWire {
  import opened Octets
  import opened Lists
  import opened AsPath

  const AS_SEGMENT_MAX := 255
  const BGP_AS_MAX := 65535
  const BGP_AS_TRANS: U32 := 23456

  predicate ValidType(t: Byte) { t in {AS_SET, AS_SEQUENCE, AS_CONFED_SEQUENCE, AS_CONFED_SET} }

  ghost predicate Typed(p: Path) { forall s <- p :: ValidType(s.typ) }

  function Width(use32: bool): nat { if use32 then 4 else 2 }

  /** The octets of `n` AS numbers. */
  function Span(n: nat, use32: bool): nat { if use32 then 4 * n else 2 * n }

  /** `ASSEGMENT_SIZE`. */
  function Size(n: nat, use32: bool): nat { 2 + Span(n, use32) }

  /** What a 2-octet speaker can say of an AS number. */
  function Trans(x: U32, use32: bool): U32 { if use32 || x <= BGP_AS_MAX then x else BGP_AS_TRANS }

  function PutAsn(x: U32, use32: bool): (s: seq<Byte>)
    ensures |s| == Width(use32)
  {
    if use32 then Put32(x) else Put16(Trans(x, false))
  }

  function GetAsn(s: seq<Byte>, use32: bool): U32
    requires |s| == Width(use32)
  {
    if use32 then Get32(s) else Get16(s)
  }

  lemma AsnRoundTrip(x: U32, use32: bool)
    ensures GetAsn(PutAsn(x, use32), use32) == Trans(x, use32)
  {
  }

  /** `assegment_data_put`. */
  function Data(asns: seq<U32>, use32: bool): (s: seq<Byte>)
    ensures |s| == Span(|asns|, use32)
  {
    if asns == [] then [] else PutAsn(asns[0], use32) + Data(asns[1..], use32)
  }

  /** The loop that reads the AS numbers of one segment. */
  function Read(s: seq<Byte>, n: nat, use32: bool): (asns: seq<U32>)
    requires |s| == Span(n, use32)
    ensures |asns| == n
  {
    if n == 0 then [] else [GetAsn(s[..Width(use32)], use32)] + Read(s[Width(use32)..], n - 1, use32)
  }

  /** An AS number on the wire: four octets as it is, or two, where 23456 stands for what does not fit. */
  lemma AsnOctets(x: U32)
    ensures PutAsn(x, true) == [x / 0x100_0000, x / 0x1_0000 % 0x100, x / 0x100 % 0x100, x % 0x100]
    ensures x <= 0xFFFF ==> PutAsn(x, false) == [x / 0x100, x % 0x100]
    ensures x > 0xFFFF ==> PutAsn(x, false) == [23456 / 0x100, 23456 % 0x100]
  {
    Put32Octets(x);
  }

  function TransAll(asns: seq<U32>, use32: bool): (r: seq<U32>)
    ensures |r| == |asns| && forall i | 0 <= i < |r| :: r[i] == Trans(asns[i], use32)
  {
    seq(|asns|, i requires 0 <= i < |asns| => Trans(asns[i], use32))
  }

  lemma {:induction false} DataRoundTrip(asns: seq<U32>, use32: bool)
    ensures Read(Data(asns, use32), |asns|, use32) == TransAll(asns, use32)
  {
    if asns != [] {
      var w := Width(use32);
      var d := Data(asns, use32);
      assert d[..w] == PutAsn(asns[0], use32) && d[w..] == Data(asns[1..], use32);
      AsnRoundTrip(asns[0], use32);
      DataRoundTrip(asns[1..], use32);
      assert TransAll(asns, use32) == [Trans(asns[0], use32)] + TransAll(asns[1..], use32);
    }
  }

  // ---------- Writing ----------

  function Chunk(typ: Byte, asns: seq<U32>, use32: bool): (s: seq<Byte>)
    requires |asns| <= AS_SEGMENT_MAX
    ensures |s| == Size(|asns|, use32)
  {
    [typ, |asns|] + Data(asns, use32)
  }

  /** How many full chunks precede the last one. */
  function FullChunks(n: nat): nat { if n == 0 then 0 else (n - 1) / AS_SEGMENT_MAX }

  /** The splitting loop of `aspath_put`: every full chunk is written from the start of the segment. */
  function Fulls(s: Segment, k: nat, use32: bool): seq<Byte>
    requires k == 0 || |s.asns| > AS_SEGMENT_MAX
  {
    if k == 0 then [] else Fulls(s, k - 1, use32) + Chunk(s.typ, s.asns[..AS_SEGMENT_MAX], use32)
  }

  /** The octets of one segment that is followed by nothing it could be packed with. */
  function PutSegment(s: Segment, use32: bool): seq<Byte>
  {
    var k := FullChunks(|s.asns|);
    Fulls(s, k, use32) + Chunk(s.typ, s.asns[AS_SEGMENT_MAX * k..], use32)
  }

  /** The byte count that `aspath_put` adds for the full chunks: each time for all of them so far. */
  function CountFulls(k: nat, use32: bool): nat
  {
    if k == 0 then 0 else CountFulls(k - 1, use32) + Size(AS_SEGMENT_MAX * k, use32)
  }

  function CountSegment(n: nat, use32: bool): nat
  {
    CountFulls(FullChunks(n), use32) + Size(n - AS_SEGMENT_MAX * FullChunks(n), use32)
  }

  function Put(p: Path, use32: bool): seq<Byte> { if p == [] then [] else PutSegment(p[0], use32) + Put(p[1..], use32) }

  function Count(p: Path, use32: bool): nat
  {
    if p == [] then 0 else CountSegment(|p[0].asns|, use32) + Count(p[1..], use32)
  }

  /** No two segments that the packing loop would join. */
  ghost predicate Unpackable(p: Path)
  {
    forall i | 0 <= i < |p| - 1 :: !(p[i].IsSequence() && p[i + 1].IsSequence())
  }

  // ---------- Reading ----------

  datatype Parsed = Malformed | Segments(path: Path)

  /** The loop of `assegments_parse`, before normalisation. */
  function ParseRaw(b: seq<Byte>, use32: bool): Parsed
  {
    if b == [] then Segments([])
    else if |b| <= 2 then Malformed
    else
      var n := b[1];
      var size := Size(n, use32);
      if size > |b| || n == 0 || !ValidType(b[0]) then Malformed
      else
        match ParseRaw(b[size..], use32)
        case Malformed => Malformed
        case Segments(rest) => Segments([Segment(b[0], Read(b[2..size], n, use32))] + rest)
  }

  /** `assegments_parse` on the first `length` octets of a stream. */
  function Parse(stream: seq<Byte>, length: nat, use32: bool): Parsed
  {
    if length == 0 then Segments([])
    else if |stream| < length || |stream| < 2 || length % 2 != 0 then Malformed
    else
      match ParseRaw(stream[..length], use32)
      case Malformed => Malformed
      case Segments(raw) => Segments(Normalise(raw))
  }

  // ---------- Round trip ----------

  function TransPath(p: Path, use32: bool): (r: Path)
    ensures |r| == |p|
  {
    if p == [] then [] else [Segment(p[0].typ, TransAll(p[0].asns, use32))] + TransPath(p[1..], use32)
  }

  /** Segments that may be written at all: not empty, of a known type. */
  ghost predicate Sound(s: Segment) { s.asns != [] && ValidType(s.typ) }

  /** Segments that survive the wire: short enough for one split of a sequence, and for none of the others. */
  ghost predicate Writable(s: Segment)
  {
    Sound(s) && |s.asns| <= if s.IsSequence() then 510 else 255
  }

  /** The full chunks of an overlong segment, as `aspath_put` writes them: each from the start of the segment. */
  function Copies(s: Segment, k: nat): Path
    requires k == 0 || |s.asns| > AS_SEGMENT_MAX
  {
    if k == 0 then [] else Copies(s, k - 1) + [Segment(s.typ, s.asns[..AS_SEGMENT_MAX])]
  }

  /** What the receiver reads of one segment before it normalises. */
  function Pieces(s: Segment): Path
  {
    var k := FullChunks(|s.asns|);
    Copies(s, k) + [Segment(s.typ, s.asns[AS_SEGMENT_MAX * k..])]
  }

  lemma ChunkParsed(typ: Byte, asns: seq<U32>, use32: bool, rest: seq<Byte>)
    requires 0 < |asns| <= AS_SEGMENT_MAX && ValidType(typ)
    ensures ParseRaw(Chunk(typ, asns, use32) + rest, use32) ==
      match ParseRaw(rest, use32)
      case Malformed => Malformed
      case Segments(p) => Segments([Segment(typ, TransAll(asns, use32))] + p)
  {
    var b := Chunk(typ, asns, use32) + rest;
    var size := Size(|asns|, use32);
    assert b[0] == typ && b[1] == |asns|;
    assert b[2..size] == Data(asns, use32) && b[size..] == rest;
    DataRoundTrip(asns, use32);
  }

  lemma PutShort(s: Segment, use32: bool)
    requires |s.asns| <= AS_SEGMENT_MAX
    ensures PutSegment(s, use32) == Chunk(s.typ, s.asns, use32) && Pieces(s) == [s]
  {
    assert FullChunks(|s.asns|) == 0 && s.asns[0..] == s.asns;
    assert Fulls(s, 0, use32) == [] && Copies(s, 0) == [];
  }

  lemma PutCons(s: Segment, p: Path, use32: bool)
    ensures Put([s] + p, use32) == PutSegment(s, use32) + Put(p, use32)
  {
    assert ([s] + p)[1..] == p;
  }

  lemma {:induction false} PutAppend(p: Path, q: Path, use32: bool)
    ensures Put(p + q, use32) == Put(p, use32) + Put(q, use32)
  {
    if p == [] {
      assert p + q == q;
    } else {
      ConsAppend(p, q);
      PutAppend(p[1..], q, use32);
      PutCons(p[0], p[1..] + q, use32);
      Associate(PutSegment(p[0], use32), Put(p[1..], use32), Put(q, use32));
    }
  }

  lemma PutOneShort(s: Segment, use32: bool)
    requires |s.asns| <= AS_SEGMENT_MAX
    ensures Put([s], use32) == Chunk(s.typ, s.asns, use32)
  {
    PutShort(s, use32);
    assert [s][1..] == [] && Put([], use32) == [];
  }

  /** Segments that fit one chunk each. */
  ghost predicate Short(p: Path) { forall s <- p :: Sound(s) && |s.asns| <= AS_SEGMENT_MAX }

  lemma {:induction false} PutCopies(s: Segment, k: nat, use32: bool)
    requires k == 0 || |s.asns| > AS_SEGMENT_MAX
    ensures Put(Copies(s, k), use32) == Fulls(s, k, use32)
    ensures Sound(s) ==> Short(Copies(s, k))
  {
    if k > 0 {
      PutCopies(s, k - 1, use32);
      var c := Segment(s.typ, s.asns[..AS_SEGMENT_MAX]);
      PutAppend(Copies(s, k - 1), [c], use32);
      PutOneShort(c, use32);
    }
  }

  /** Writing the pieces writes the segment. */
  lemma PutPieces(s: Segment, use32: bool)
    ensures Put(Pieces(s), use32) == PutSegment(s, use32)
    ensures Sound(s) ==> Short(Pieces(s))
  {
    var k := FullChunks(|s.asns|);
    var last := Segment(s.typ, s.asns[AS_SEGMENT_MAX * k..]);
    PutCopies(s, k, use32);
    PutAppend(Copies(s, k), [last], use32);
    PutOneShort(last, use32);
  }

  /** The pieces of all segments. */
  function AllPieces(p: Path): Path { if p == [] then [] else Pieces(p[0]) + AllPieces(p[1..]) }

  lemma {:induction false} PutAllPieces(p: Path, use32: bool)
    ensures Put(AllPieces(p), use32) == Put(p, use32)
    ensures (forall s <- p :: Sound(s)) ==> Short(AllPieces(p))
  {
    if p != [] {
      assert p[0] in p;
      PutAllPieces(p[1..], use32);
      PutPieces(p[0], use32);
      PutAppend(Pieces(p[0]), AllPieces(p[1..]), use32);
    }
  }

  lemma {:induction false} ShortParsed(p: Path, use32: bool)
    requires Short(p)
    ensures ParseRaw(Put(p, use32), use32) == Segments(TransPath(p, use32))
  {
    if p != [] {
      assert p[0] in p;
      ShortParsed(p[1..], use32);
      PutShort(p[0], use32);
      ChunkParsed(p[0].typ, p[0].asns, use32, Put(p[1..], use32));
    }
  }

  /** Whatever the length of its segments, a path is read back in the pieces that were written. */
  lemma PathParsed(p: Path, use32: bool)
    requires forall s <- p :: Sound(s)
    ensures ParseRaw(Put(p, use32), use32) == Segments(TransPath(AllPieces(p), use32))
  {
    PutAllPieces(p, use32);
    ShortParsed(AllPieces(p), use32);
  }

  lemma {:induction false} TransAppend(p: Path, q: Path, use32: bool)
    ensures TransPath(p + q, use32) == TransPath(p, use32) + TransPath(q, use32)
  {
    if p == [] {
      assert p + q == q;
    } else {
      assert (p + q)[1..] == p[1..] + q;
      TransAppend(p[1..], q, use32);
    }
  }

  lemma TransHalves(asns: seq<U32>, use32: bool)
    requires |asns| > AS_SEGMENT_MAX
    ensures TransAll(asns[..AS_SEGMENT_MAX], use32) + TransAll(asns[AS_SEGMENT_MAX..], use32) == TransAll(asns, use32)
  {
  }

  lemma TransOne(s: Segment, use32: bool)
    ensures TransPath([s], use32) == [Segment(s.typ, TransAll(s.asns, use32))]
  {
    assert [s][1..] == [];
  }

  /** One split gives the two halves. */
  lemma TwoPieces(s: Segment)
    requires AS_SEGMENT_MAX < |s.asns| <= 2 * AS_SEGMENT_MAX
    ensures Pieces(s) == [Segment(s.typ, s.asns[..AS_SEGMENT_MAX])] + [Segment(s.typ, s.asns[AS_SEGMENT_MAX..])]
  {
    assert FullChunks(|s.asns|) == 1;
    assert Copies(s, 0) == [] && Copies(s, 1) == [Segment(s.typ, s.asns[..AS_SEGMENT_MAX])];
  }

  /** Putting the pieces together again. */
  lemma NormalisePieces(s: Segment, use32: bool, rest: Path)
    requires Writable(s)
    ensures Normalise(TransPath(Pieces(s), use32) + rest) == Normalise([Segment(s.typ, TransAll(s.asns, use32))] + rest)
  {
    if |s.asns| <= AS_SEGMENT_MAX {
      PutShort(s, use32);
      TransOne(s, use32);
    } else {
      TwoPieces(s);
      var c, d := Segment(s.typ, s.asns[..AS_SEGMENT_MAX]), Segment(s.typ, s.asns[AS_SEGMENT_MAX..]);
      TransAppend([c], [d], use32);
      TransOne(c, use32);
      TransOne(d, use32);
      TransHalves(s.asns, use32);
      var a, b := Segment(s.typ, TransAll(c.asns, use32)), Segment(s.typ, TransAll(d.asns, use32));
      NormaliseMerge(a, b, rest);
      assert [a] + [b] == [a, b];
    }
  }

  /** Normalising the tail first changes nothing. */
  lemma NormaliseTail(s: Segment, p: Path, q: Path)
    requires Normalise(p) == Normalise(q)
    ensures Normalise([s] + p) == Normalise([s] + q)
  {
    assert ([s] + p)[1..] == p && ([s] + q)[1..] == q;
  }

  lemma {:induction false} NormaliseAllPieces(p: Path, use32: bool)
    requires forall s <- p :: Writable(s)
    ensures Normalise(TransPath(AllPieces(p), use32)) == Normalise(TransPath(p, use32))
  {
    if p != [] {
      assert p[0] in p;
      NormaliseAllPieces(p[1..], use32);
      TransAppend(Pieces(p[0]), AllPieces(p[1..]), use32);
      NormalisePieces(p[0], use32, TransPath(AllPieces(p[1..]), use32));
      NormaliseTail(Segment(p[0].typ, TransAll(p[0].asns, use32)), TransPath(AllPieces(p[1..]), use32),
          TransPath(p[1..], use32));
    }
  }

  lemma SizeEven(n: nat, use32: bool)
    ensures Size(n, use32) % 2 == 0 && Size(n, use32) >= 2 + n
  {
    assert Size(n, use32) == if use32 then 2 + 4 * n else 2 + 2 * n;
  }

  lemma EvenAppend(a: seq<Byte>, b: seq<Byte>)
    requires |a| % 2 == 0 && |b| % 2 == 0
    ensures |a + b| % 2 == 0
  {
  }

  lemma {:induction false} ShortSize(p: Path, use32: bool)
    requires Short(p)
    ensures |Put(p, use32)| % 2 == 0 && (p != [] ==> |Put(p, use32)| > 2)
  {
    if p != [] {
      assert p[0] in p;
      ShortSize(p[1..], use32);
      PutShort(p[0], use32);
      SizeEven(|p[0].asns|, use32);
      EvenAppend(PutSegment(p[0], use32), Put(p[1..], use32));
    }
  }

  lemma PiecesNonempty(p: Path)
    ensures AllPieces(p) == [] <==> p == []
  {
  }

  /** Reading what was written: never malformed, whatever the length of the segments. */
  lemma WireParsed(p: Path, use32: bool)
    requires forall s <- p :: Sound(s)
    ensures Parse(Put(p, use32), |Put(p, use32)|, use32) == Segments(Normalise(TransPath(AllPieces(p), use32)))
  {
    PutAllPieces(p, use32);
    ShortSize(AllPieces(p), use32);
    PiecesNonempty(p);
    PathParsed(p, use32);
    var b := Put(p, use32);
    assert b[..|b|] == b;
  }

  /** It gives the normal form of the path, as far as the AS numbers fit, if no segment is too long. */
  lemma WireRoundTrip(p: Path, use32: bool)
    requires forall s <- p :: Writable(s)
    ensures Parse(Put(p, use32), |Put(p, use32)|, use32) == Segments(Normalise(TransPath(p, use32)))
  {
    WireParsed(p, use32);
    NormaliseAllPieces(p, use32);
  }

  lemma {:induction false} Trans32(p: Path)
    ensures TransPath(p, true) == p
  {
    if p != [] {
      Trans32(p[1..]);
      assert TransAll(p[0].asns, true) == p[0].asns;
    }
  }

  lemma {:induction false} TransCounts(p: Path, use32: bool)
    ensures Hops(TransPath(p, use32)) == Hops(p) && Confeds(TransPath(p, use32)) == Confeds(p)
  {
    if p != [] { TransCounts(p[1..], use32); }
  }

  /** With 4-octet AS numbers a normal path comes back as it was. */
  lemma WireRoundTrip32(p: Path)
    requires Normal(p) && forall s <- p :: Writable(s)
    ensures Parse(Put(p, true), |Put(p, true)|, true) == Segments(p)
  {
    WireRoundTrip(p, true);
    Trans32(p);
    NormalIsFixed(p);
  }

  // ---------- Hop counts ----------

  lemma {:induction false} CopiesCounts(s: Segment, k: nat)
    requires k == 0 || |s.asns| > AS_SEGMENT_MAX
    ensures Hops(Copies(s, k)) == k * (if s.typ == AS_SEQUENCE then 255 else if s.typ == AS_SET then 1 else 0)
    ensures Confeds(Copies(s, k))
        == k * (if s.typ == AS_CONFED_SEQUENCE then 255 else if s.typ == AS_CONFED_SET then 1 else 0)
  {
    if k > 0 {
      CopiesCounts(s, k - 1);
      CountsAppend(Copies(s, k - 1), [Segment(s.typ, s.asns[..AS_SEGMENT_MAX])]);
    }
  }

  /** Splitting keeps the hops of a sequence; a set is counted once for every piece. */
  lemma PiecesCounts(s: Segment)
    ensures Hops(Pieces(s)) == SegmentHops(s) + if s.typ == AS_SET then FullChunks(|s.asns|) else 0
    ensures Confeds(Pieces(s)) == SegmentConfeds(s) + if s.typ == AS_CONFED_SET then FullChunks(|s.asns|) else 0
  {
    var k := FullChunks(|s.asns|);
    CopiesCounts(s, k);
    CountsAppend(Copies(s, k), [Segment(s.typ, s.asns[AS_SEGMENT_MAX * k..])]);
  }

  /** No segment of type `t` needs splitting. */
  ghost predicate Unsplit(p: Path, t: Byte) { forall s <- p | s.typ == t :: |s.asns| <= AS_SEGMENT_MAX }

  lemma UnsplitCons(p: Path, t: Byte)
    requires p != []
    ensures Unsplit(p, t) <==> (p[0].typ == t ==> |p[0].asns| <= AS_SEGMENT_MAX) && Unsplit(p[1..], t)
  {
    assert p == [p[0]] + p[1..];
  }

  lemma {:induction false} AllPiecesCounts(p: Path)
    ensures Hops(AllPieces(p)) >= Hops(p) && (Hops(AllPieces(p)) == Hops(p) <==> Unsplit(p, AS_SET))
    ensures Confeds(AllPieces(p)) >= Confeds(p) && (Confeds(AllPieces(p)) == Confeds(p) <==> Unsplit(p, AS_CONFED_SET))
  {
    if p != [] {
      AllPiecesCounts(p[1..]);
      PiecesCounts(p[0]);
      CountsAppend(Pieces(p[0]), AllPieces(p[1..]));
      UnsplitCons(p, AS_SET);
      UnsplitCons(p, AS_CONFED_SET);
    }
  }

  /**
    With either width the hop count comes back exactly when no AS_SET needs splitting, and the
    confederation count exactly when no AS_CONFED_SET does; sequences may be of any length.
  */
  lemma WireHops(p: Path, use32: bool)
    requires forall s <- p :: Sound(s)
    ensures var r := Parse(Put(p, use32), |Put(p, use32)|, use32);
      && r.Segments?
      && (Hops(r.path) == Hops(p) <==> Unsplit(p, AS_SET))
      && (Confeds(r.path) == Confeds(p) <==> Unsplit(p, AS_CONFED_SET))
  {
    WireParsed(p, use32);
    var q := AllPieces(p);
    NormaliseCounts(TransPath(q, use32));
    TransCounts(q, use32);
    AllPiecesCounts(p);
  }

  // ---------- What the parser accepts ----------

  /** Segments as they stand on the wire. */
  ghost predicate Wired(s: Segment, use32: bool)
  {
    0 < |s.asns| <= AS_SEGMENT_MAX && ValidType(s.typ) && forall x <- s.asns :: use32 || x <= BGP_AS_MAX
  }

  lemma PutGot16(s: seq<Byte>)
    requires |s| == 2
    ensures Put16(Get16(s)) == s
  {
  }

  lemma PutGot32(s: seq<Byte>)
    requires |s| == 4
    ensures Put32(Get32(s)) == s
  {
    var hi: U16, lo: U16 := Get16(s[..2]), Get16(s[2..4]);
    PutGot16(s[..2]);
    PutGot16(s[2..4]);
    var v: U32 := (hi as int) * 0x1_0000 + lo;
    assert v / 0x1_0000 == hi && v % 0x1_0000 == lo;
    assert s == s[..2] + s[2..4];
  }

  lemma PutGotAsn(s: seq<Byte>, use32: bool)
    requires |s| == Width(use32)
    ensures PutAsn(GetAsn(s, use32), use32) == s && (use32 || GetAsn(s, use32) <= BGP_AS_MAX)
  {
    if use32 { PutGot32(s); } else { PutGot16(s); }
  }

  lemma {:induction false} DataOfRead(s: seq<Byte>, n: nat, use32: bool)
    requires |s| == Span(n, use32)
    ensures Data(Read(s, n, use32), use32) == s && forall x <- Read(s, n, use32) :: use32 || x <= BGP_AS_MAX
  {
    if n > 0 {
      var w := Width(use32);
      PutGotAsn(s[..w], use32);
      DataOfRead(s[w..], n - 1, use32);
      assert Read(s, n, use32)[1..] == Read(s[w..], n - 1, use32);
      assert s == s[..w] + s[w..];
    }
  }

  lemma ChunkOfRead(b: seq<Byte>, size: nat, use32: bool)
    requires |b| > 2 && size == Size(b[1], use32) <= |b| && b[1] > 0 && ValidType(b[0])
    ensures var s := Segment(b[0], Read(b[2..size], b[1], use32));
      Wired(s, use32) && PutSegment(s, use32) == b[..size]
  {
    DataOfRead(b[2..size], b[1], use32);
    PutShort(Segment(b[0], Read(b[2..size], b[1], use32)), use32);
    assert b[..size] == [b[0], b[1]] + b[2..size];
  }

  /** Whatever the parser accepts is what would be written for the segments it found. */
  lemma {:induction false} ParseUndone(b: seq<Byte>, use32: bool)
    ensures var r := ParseRaw(b, use32);
      r.Segments? ==> (Put(r.path, use32) == b && forall s <- r.path :: Wired(s, use32))
    decreases |b|
  {
    if ParseRaw(b, use32).Segments? && b != [] {
      var size := Size(b[1], use32);
      ParseUndone(b[size..], use32);
      ChunkOfRead(b, size, use32);
      var s, rest := Segment(b[0], Read(b[2..size], b[1], use32)), ParseRaw(b[size..], use32).path;
      WiredCons(s, rest, b[..size], b[size..], use32);
      TakeDrop(b, size);
      assert ParseRaw(b, use32).path == [s] + rest;
    }
  }

  lemma WiredCons(s: Segment, p: Path, b: seq<Byte>, c: seq<Byte>, use32: bool)
    requires Wired(s, use32) && PutSegment(s, use32) == b && Put(p, use32) == c && forall t <- p :: Wired(t, use32)
    ensures Put([s] + p, use32) == b + c && forall t <- [s] + p :: Wired(t, use32)
  {
    PutCons(s, p, use32);
  }

  lemma {:induction false} TransWired(p: Path, use32: bool)
    requires forall s <- p :: Wired(s, use32)
    ensures TransPath(p, use32) == p
  {
    if p != [] {
      assert p[0] in p;
      TransWired(p[1..], use32);
      assert TransAll(p[0].asns, use32) == p[0].asns by {
        assert forall i | 0 <= i < |p[0].asns| :: p[0].asns[i] in p[0].asns;
      }
      assert p == [p[0]] + p[1..];
    }
  }

  /** The parser finds the segments `p` in exactly the octets that are written for `p`, and accepts nothing else. */
  lemma ParseExact(b: seq<Byte>, p: Path, use32: bool)
    ensures ParseRaw(b, use32) == Segments(p) <==> Put(p, use32) == b && forall s <- p :: Wired(s, use32)
  {
    ParseUndone(b, use32);
    if Put(p, use32) == b && forall s <- p :: Wired(s, use32) {
      ShortParsed(p, use32);
      TransWired(p, use32);
    }
  }

  // ---------- The returned byte count ----------

  lemma {:induction false} FullsSize(s: Segment, k: nat, use32: bool)
    requires k == 0 || |s.asns| > AS_SEGMENT_MAX
    ensures |Fulls(s, k, use32)| == k * Size(AS_SEGMENT_MAX, use32)
  {
    if k > 0 { FullsSize(s, k - 1, use32); }
  }

  /** Each further full chunk is counted with all its predecessors. */
  lemma {:induction false} CountFullsExact(k: nat, use32: bool)
    ensures CountFulls(k, use32) >= k * Size(AS_SEGMENT_MAX, use32)
    ensures CountFulls(k, use32) == k * Size(AS_SEGMENT_MAX, use32) <==> k <= 1
  {
    if k > 0 {
      CountFullsExact(k - 1, use32);
      if k == 1 {
        assert CountFulls(0, use32) == 0;
      }
    }
  }

  lemma SegmentCountExact(s: Segment, use32: bool)
    ensures CountSegment(|s.asns|, use32) >= |PutSegment(s, use32)|
    ensures CountSegment(|s.asns|, use32) == |PutSegment(s, use32)| <==> |s.asns| <= 510
  {
    var k := FullChunks(|s.asns|);
    FullsSize(s, k, use32);
    CountFullsExact(k, use32);
  }

  /** `aspath_put` returns the number of octets it wrote exactly when no segment needs more than one split. */
  lemma {:induction false} CountExact(p: Path, use32: bool)
    ensures Count(p, use32) >= |Put(p, use32)|
    ensures Count(p, use32) == |Put(p, use32)| <==> forall s <- p :: |s.asns| <= 510
  {
    if p != [] {
      CountExact(p[1..], use32);
      SegmentCountExact(p[0], use32);
      assert (forall s <- p :: |s.asns| <= 510) <==> |p[0].asns| <= 510 && forall s <- p[1..] :: |s.asns| <= 510 by {
        assert p == [p[0]] + p[1..];
      }
    }
  }

  // ---------- The loops ----------

  /** The read loop of one segment. */
  method ReadAsns(s: seq<Byte>, n: nat, use32: bool) returns (asns: seq<U32>)
    requires |s| == Span(n, use32)
    ensures asns == Read(s, n, use32)
  {
    var i, rest := 0, s;
    asns := [];
    while i < n
      invariant 0 <= i <= n && |rest| == Span(n - i, use32)
      invariant asns + Read(rest, n - i, use32) == Read(s, n, use32)
    {
      var w := Width(use32);
      assert (n - i) * w == w + (n - i - 1) * w;
      ghost var tail := Read(rest[w..], n - i - 1, use32);
      assert Read(rest, n - i, use32) == [GetAsn(rest[..w], use32)] + tail;
      assert asns + ([GetAsn(rest[..w], use32)] + tail) == asns + [GetAsn(rest[..w], use32)] + tail;
      asns, rest, i := asns + [GetAsn(rest[..w], use32)], rest[w..], i + 1;
    }
  }

  /** `assegments_parse`. */
  method AssegmentsParse(stream: seq<Byte>, length: nat, use32: bool) returns (r: Parsed)
    ensures r == Parse(stream, length, use32)
  {
    if length == 0 { return Segments([]); }
    if |stream| < length || |stream| < 2 || length % 2 != 0 { return Malformed; }
    var rest := stream[..length];
    var head: Path := [];
    while rest != []
      invariant ParseRaw(stream[..length], use32) == Prepend(head, ParseRaw(rest, use32))
      decreases |rest|
    {
      if |rest| <= 2 { return Malformed; }
      var size := Size(rest[1], use32);
      if size > |rest| || rest[1] == 0 || !ValidType(rest[0]) { return Malformed; }
      var asns := ReadAsns(rest[2..size], rest[1], use32);
      var seg := Segment(rest[0], asns);
      PrependMore(head, seg, ParseRaw(rest[size..], use32));
      head, rest := head + [seg], rest[size..];
    }
    assert head + [] == head;
    var path := NormaliseChain(head);
    r := Segments(path);
  }

  function Prepend(p: Path, r: Parsed): Parsed
  {
    match r
    case Malformed => Malformed
    case Segments(q) => Segments(p + q)
  }

  lemma PrependMore(p: Path, s: Segment, r: Parsed)
    ensures Prepend(p, Prepend([s], r)) == Prepend(p + [s], r)
  {
    if r.Segments? { assert p + ([s] + r.path) == p + [s] + r.path; }
  }

  // ---------- Packing of sequences that were never normalised ----------

  /** `ASSEGMENTS_PACKABLE`. */
  predicate Packable(s: Segment, t: Segment)
  {
    s.IsSequence() && t.IsSequence() && |s.asns| + |t.asns| <= AS_SEGMENT_MAX
  }

  /** How many of the following segments the packing loop adds to `s`. */
  function PackedWith(s: Segment, rest: Path): (k: nat)
    ensures k <= |rest|
  {
    if rest != [] && Packable(s, rest[0]) then 1 + PackedWith(s, rest[1..]) else 0
  }

  /** The AS numbers of several segments. */
  function Gathered(p: Path): seq<U32> { if p == [] then [] else Gathered(p[..|p| - 1]) + p[|p| - 1].asns }

  /** The length octet after packing `more`: rewritten each time as if only the latest had been added. */
  function PackedLength(s: Segment, more: Path): nat
  {
    |s.asns| + if more == [] then 0 else |more[|more| - 1].asns|
  }

  /** The length octet is right exactly when no packed segment but the last has an AS number. */
  lemma PackedLengthExact(s: Segment, more: Path)
    ensures PackedLength(s, more) == |s.asns| + |Gathered(more)| <==> more == [] || Gathered(more[..|more| - 1]) == []
  {
  }

  /** The octets of `s` with the segments `more` packed into it. */
  function PutPacked(s: Segment, more: Path, use32: bool): seq<Byte>
    requires more != [] ==> PackedLength(s, more) <= AS_SEGMENT_MAX
  {
    if more == [] then PutSegment(s, use32)
    else [s.typ, PackedLength(s, more)] + Data(s.asns, use32) + Data(Gathered(more), use32)
  }

  lemma PackedFits(s: Segment, rest: Path, k: nat)
    requires k <= PackedWith(s, rest)
    ensures k > 0 ==> PackedLength(s, rest[..k]) <= AS_SEGMENT_MAX && |s.asns| <= AS_SEGMENT_MAX
    ensures k < |rest| ==> (k < PackedWith(s, rest) <==> Packable(s, rest[k]))
    decreases k
  {
    if k > 0 {
      assert rest != [] && Packable(s, rest[0]);
      PackedFits(s, rest[1..], k - 1);
      if k > 1 { assert rest[..k][k - 1] == rest[1..][..k - 1][k - 2]; }
    }
  }

  /** The first segment, with what is packed into it. */
  function FirstGroup(p: Path, use32: bool): seq<Byte>
    requires p != []
  {
    var k := PackedWith(p[0], p[1..]);
    PackedFits(p[0], p[1..], k);
    PutPacked(p[0], p[1..][..k], use32)
  }

  function AfterGroup(p: Path): (rest: Path)
    requires p != []
    ensures |rest| < |p|
  {
    p[1 + PackedWith(p[0], p[1..])..]
  }

  /** Everything `aspath_put` writes when there is enough room. */
  function Written(p: Path, use32: bool): seq<Byte>
    decreases |p|
  {
    if p == [] then [] else FirstGroup(p, use32) + Written(AfterGroup(p), use32)
  }

  /** What it returns. */
  function Returned(p: Path, use32: bool): nat
    decreases |p|
  {
    if p == [] then 0
    else
      var k := PackedWith(p[0], p[1..]);
      CountSegment(|p[0].asns|, use32) + Span(|Gathered(p[1..][..k])|, use32) + Returned(p[1 + k..], use32)
  }

  /** On a path without adjacent sequences, as normalisation leaves it, nothing is packed. */
  lemma {:induction false} UnpackableWritten(p: Path, use32: bool)
    requires Unpackable(p)
    ensures Written(p, use32) == Put(p, use32) && Returned(p, use32) == Count(p, use32)
  {
    if p != [] {
      assert PackedWith(p[0], p[1..]) == 0;
      assert Unpackable(p[1..]);
      UnpackableWritten(p[1..], use32);
    }
  }

  lemma WrittenReadBack(p: Path, use32: bool)
    requires Normal(p) && forall s <- p :: Writable(s)
    ensures Parse(Written(p, use32), Returned(p, use32), use32) == Segments(Normalise(TransPath(p, use32)))
  {
    UnpackableWritten(p, use32);
    CountExact(p, use32);
    WireRoundTrip(p, use32);
  }

  /** How many segments are not plain sequences; normalising never joins those. */
  function Others(p: Path): nat { if p == [] then 0 else Others(p[1..]) + if p[0].IsSequence() then 0 else 1 }

  lemma {:induction false} OthersAppend(p: Path, q: Path)
    ensures Others(p + q) == Others(p) + Others(q)
  {
    if p == [] {
      assert p + q == q;
    } else {
      assert (p + q)[1..] == p[1..] + q;
      OthersAppend(p[1..], q);
    }
  }

  lemma {:induction false} NormaliseOthers(p: Path)
    ensures Others(Normalise(p)) == Others(p)
  {
    if p != [] {
      NormaliseOthers(p[1..]);
      var n := Normalise(p[1..]);
      if p[0].IsSequence() && n != [] && n[0].IsSequence() {
        assert Normalise(p)[1..] == n[1..];
      } else {
        assert Normalise(p)[1..] == n;
      }
    }
  }

  lemma {:induction false} CopiesOthers(s: Segment, k: nat)
    requires k == 0 || |s.asns| > AS_SEGMENT_MAX
    ensures Others(Copies(s, k)) == if s.IsSequence() then 0 else k
  {
    if k > 0 {
      CopiesOthers(s, k - 1);
      OthersAppend(Copies(s, k - 1), [Segment(s.typ, s.asns[..AS_SEGMENT_MAX])]);
    }
  }

  lemma PiecesOthers(s: Segment)
    ensures Others(Pieces(s)) == if s.IsSequence() then 0 else 1 + FullChunks(|s.asns|)
  {
    var k := FullChunks(|s.asns|);
    CopiesOthers(s, k);
    OthersAppend(Copies(s, k), [Segment(s.typ, s.asns[AS_SEGMENT_MAX * k..])]);
  }

  lemma {:induction false} AllPiecesOthers(p: Path)
    ensures Others(AllPieces(p)) >= Others(p)
    ensures Others(AllPieces(p)) == Others(p) ==> forall s <- p :: s.IsSequence() || |s.asns| <= AS_SEGMENT_MAX
  {
    if p != [] {
      AllPiecesOthers(p[1..]);
      PiecesOthers(p[0]);
      OthersAppend(Pieces(p[0]), AllPieces(p[1..]));
      assert p == [p[0]] + p[1..];
    }
  }

  /** A path that comes back as it was had no overlong set or confederation segment. */
  lemma ReadBackIsWritable(p: Path)
    requires (forall s <- p :: Sound(s) && |s.asns| <= 510) && Parse(Put(p, true), |Put(p, true)|, true) == Segments(p)
    ensures forall s <- p :: Writable(s)
  {
    WireParsed(p, true);
    Trans32(AllPieces(p));
    NormaliseOthers(AllPieces(p));
    AllPiecesOthers(p);
  }

  /**
    The whole of `aspath_put` on a normal path: what it writes, read with the length that it
    returns, is the path again exactly when no sequence has more than 510 AS numbers and no
    other segment more than 255.
  */
  lemma PutRoundTrip32(p: Path)
    requires Normal(p) && forall s <- p :: Sound(s)
    ensures Parse(Written(p, true), Returned(p, true), true) == Segments(p) <==> forall s <- p :: Writable(s)
    ensures (forall s <- p :: Writable(s)) ==> Returned(p, true) == |Written(p, true)|
  {
    UnpackableWritten(p, true);
    CountExact(p, true);
    if forall s <- p :: Writable(s) {
      WireRoundTrip32(p);
    } else if forall s <- p :: |s.asns| <= 510 {
      if Parse(Written(p, true), Returned(p, true), true) == Segments(p) { ReadBackIsWritable(p); }
    }
  }

  /** Beyond 510 the returned length exceeds what was written, so the reader refuses it. */
  lemma TooLongIsMalformed(p: Path, s: Segment)
    requires Normal(p) && s in p && |s.asns| > 510
    ensures Parse(Written(p, true), Returned(p, true), true) == Malformed
  {
    UnpackableWritten(p, true);
    CountExact(p, true);
  }

  function Sequence511(): Path { [Segment(AS_SEQUENCE, seq(511, _ => 1))] }

  function Set256(): Path { [Segment(AS_SET, seq(256, i => i))] }

  /** A sequence of 511 hops is refused by the reader. */
  lemma LongSequenceFails()
    ensures Parse(Written(Sequence511(), true), Returned(Sequence511(), true), true) == Malformed
  {
    TooLongIsMalformed(Sequence511(), Sequence511()[0]);
  }

  /** A set of 256 members does not come back as it was. */
  lemma LongSetFails()
    ensures Normal(Set256()) && Parse(Written(Set256(), true), Returned(Set256(), true), true) != Segments(Set256())
  {
    assert Set256()[0] in Set256() && |Set256()[0].asns| == 256;
    PutRoundTrip32(Set256());
  }

  lemma {:induction false} DataAppend(a: seq<U32>, b: seq<U32>, use32: bool)
    ensures Data(a + b, use32) == Data(a, use32) + Data(b, use32)
  {
    if a == [] {
      assert a + b == b;
    } else {
      assert (a + b)[1..] == a[1..] + b;
      DataAppend(a[1..], b, use32);
    }
  }

  /** The packing loop. */
  method Pack(s: Segment, rest: Path, first: seq<Byte>, use32: bool) returns (out: seq<Byte>, k: nat, asnsPacked: nat)
    requires first == PutSegment(s, use32)
    ensures k == PackedWith(s, rest) && asnsPacked == |Gathered(rest[..k])|
    ensures (k > 0 ==> PackedLength(s, rest[..k]) <= AS_SEGMENT_MAX) && out == PutPacked(s, rest[..k], use32)
  {
    out, k, asnsPacked := first, 0, 0;
    while k < |rest| && Packable(s, rest[k])
      invariant Packing(s, rest, k, use32, out, asnsPacked)
    {
      PackRound(s, rest, k, use32, out, asnsPacked);
      out := [s.typ, |s.asns| + |rest[k].asns|] + out[2..] + Data(rest[k].asns, use32);
      asnsPacked := asnsPacked + |rest[k].asns|;
      k := k + 1;
    }
    PackedFits(s, rest, k);
  }

  /** `k` segments have been packed behind `s`. */
  ghost predicate Packing(s: Segment, rest: Path, k: nat, use32: bool, out: seq<Byte>, asnsPacked: nat)
  {
    && k <= PackedWith(s, rest) <= |rest| && asnsPacked == |Gathered(rest[..k])|
    && (k > 0 ==> PackedLength(s, rest[..k]) <= AS_SEGMENT_MAX) && out == PutPacked(s, rest[..k], use32)
  }

  lemma PackRound(s: Segment, rest: Path, k: nat, use32: bool, out: seq<Byte>, asnsPacked: nat)
    requires Packing(s, rest, k, use32, out, asnsPacked) && k < |rest| && Packable(s, rest[k])
    ensures |out| >= 2 && |s.asns| + |rest[k].asns| <= AS_SEGMENT_MAX
    ensures Packing(s, rest, k + 1, use32,
      [s.typ, |s.asns| + |rest[k].asns|] + out[2..] + Data(rest[k].asns, use32), asnsPacked + |rest[k].asns|)
  {
    PackedFits(s, rest, k);
    PackedFits(s, rest, k + 1);
    PackStep(s, rest, k, use32);
  }

  lemma GatheredSnoc(rest: Path, k: nat)
    requires k < |rest|
    ensures Gathered(rest[..k + 1]) == Gathered(rest[..k]) + rest[k].asns && rest[..k + 1] != []
    ensures k == 0 ==> Gathered(rest[..k]) == []
    ensures forall s :: PackedLength(s, rest[..k + 1]) == |s.asns| + |rest[k].asns|
  {
    assert rest[..k + 1][..k] == rest[..k];
  }

  /** The octets after the length octet. */
  lemma PackedBody(s: Segment, rest: Path, k: nat, use32: bool)
    requires k <= |rest| && |s.asns| <= AS_SEGMENT_MAX && (k > 0 ==> PackedLength(s, rest[..k]) <= AS_SEGMENT_MAX)
    ensures |PutPacked(s, rest[..k], use32)| >= 2
    ensures PutPacked(s, rest[..k], use32)[2..] == Data(s.asns, use32) + Data(Gathered(rest[..k]), use32)
  {
    if k == 0 {
      PutShort(s, use32);
      assert Gathered(rest[..0]) == [];
    }
  }

  lemma PackStep(s: Segment, rest: Path, k: nat, use32: bool)
    requires k < |rest| && Packable(s, rest[k]) && (k > 0 ==> PackedLength(s, rest[..k]) <= AS_SEGMENT_MAX)
    ensures PackedLength(s, rest[..k + 1]) == |s.asns| + |rest[k].asns|
    ensures Gathered(rest[..k + 1]) == Gathered(rest[..k]) + rest[k].asns
    ensures |PutPacked(s, rest[..k], use32)| >= 2
    ensures PutPacked(s, rest[..k + 1], use32)
         == [s.typ, |s.asns| + |rest[k].asns|] + PutPacked(s, rest[..k], use32)[2..] + Data(rest[k].asns, use32)
  {
    GatheredSnoc(rest, k);
    PackedBody(s, rest, k, use32);
    var g := Gathered(rest[..k]);
    DataAppend(g, rest[k].asns, use32);
    var h, d := [s.typ, |s.asns| + |rest[k].asns|], Data(s.asns, use32);
    Middle(h, d, Data(g, use32), Data(rest[k].asns, use32));
  }

  lemma ReturnedStep(p: Path, use32: bool, k: nat)
    requires p != [] && k == PackedWith(p[0], p[1..])
    ensures Returned(p, use32)
         == CountSegment(|p[0].asns|, use32) + Span(|Gathered(p[1..][..k])|, use32) + Returned(p[1 + k..], use32)
  {
  }

  /** One round of the outer loop of `aspath_put`. */
  method PutGroup(p: Path, use32: bool) returns (out: seq<Byte>, bytes: nat, rest: Path)
    requires p != []
    ensures |rest| < |p|
    ensures out == FirstGroup(p, use32) && rest == AfterGroup(p) && Returned(p, use32) == bytes + Returned(rest, use32)
  {
    var first, count := PutOne(p[0], use32);
    var o, k, packed := Pack(p[0], p[1..], first, use32);
    ReturnedStep(p, use32, k);
    out, bytes, rest := o, count + Span(packed, use32), p[1 + k..];
  }

  /** `aspath_put` into a stream with enough room. */
  method AspathPut(p: Path, use32: bool) returns (out: seq<Byte>, bytes: nat)
    ensures p == [] || p[0].asns == [] ==> out == [] && bytes == 0
    ensures p != [] && p[0].asns != [] ==> out == Written(p, use32) && bytes == Returned(p, use32)
  {
    out, bytes := [], 0;
    if p == [] || |p[0].asns| == 0 { return; }
    var rest := p;
    while rest != []
      invariant Written(p, use32) == out + Written(rest, use32) && Returned(p, use32) == bytes + Returned(rest, use32)
      decreases |rest|
    {
      var o, b, next := PutGroup(rest, use32);
      Associate(out, o, Written(next, use32));
      out, bytes, rest := out + o, bytes + b, next;
    }
  }

  /** The body of the loop of `aspath_put`: full chunks, then the rest. */
  method PutOne(s: Segment, use32: bool) returns (out: seq<Byte>, bytes: nat)
    ensures out == PutSegment(s, use32) && bytes == CountSegment(|s.asns|, use32)
  {
    var written, k := 0, 0;
    out, bytes := [], 0;
    while |s.asns| - written > AS_SEGMENT_MAX
      invariant written == AS_SEGMENT_MAX * k && 0 <= k <= FullChunks(|s.asns|)
      invariant k > 0 ==> |s.asns| > AS_SEGMENT_MAX
      invariant out == Fulls(s, k, use32) && bytes == CountFulls(k, use32)
    {
      out := out + Chunk(s.typ, s.asns[..AS_SEGMENT_MAX], use32);
      written := written + AS_SEGMENT_MAX;
      k := k + 1;
      bytes := bytes + Size(written, use32);
    }
    assert k == FullChunks(|s.asns|);
    out := out + Chunk(s.typ, s.asns[written..], use32);
    bytes := bytes + Size(|s.asns| - written, use32);
  }
}

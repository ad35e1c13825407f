/**
  AS paths as text (quagga-srx/bgpd/bgp_aspath.c): the printer
  aspath_make_str_count with its growing buffer, and the parser
  aspath_str2aspath with its tokens.
*/
module AsPathString {
  import opened Octets
  import opened Lists
  import opened Decimal
  import opened AsPath
  import opened AsPathWire

  // ---------- Printing ----------

  /** `aspath_delimiter_char`. */
  function Open(t: Byte): char { if t == AS_SET then '{' else if t == AS_CONFED_SEQUENCE then '(' else '[' }
  function Close(t: Byte): char { if t == AS_SET then '}' else if t == AS_CONFED_SEQUENCE then ')' else ']' }

  function Separator(t: Byte): char { if t == AS_SET || t == AS_CONFED_SET then ',' else ' ' }

  function PrintAsns(asns: seq<U32>, sep: char): string
  {
    if asns == [] then []
    else if |asns| == 1 then Digits(asns[0])
    else Digits(asns[0]) + ([sep] + PrintAsns(asns[1..], sep))
  }

  function PrintSegment(s: Segment): string
  {
    var body := PrintAsns(s.asns, Separator(s.typ));
    if s.typ == AS_SEQUENCE then body else [Open(s.typ)] + (body + [Close(s.typ)])
  }

  function Print(p: Path): string
  {
    if p == [] then [] else if |p| == 1 then PrintSegment(p[0]) else PrintSegment(p[0]) + ([' '] + Print(p[1..]))
  }

  // ---------- What the text looks like ----------

  /** How often a character occurs. */
  function Occurs(c: char, s: string): nat { if s == [] then 0 else (if s[0] == c then 1 else 0) + Occurs(c, s[1..]) }

  lemma {:induction false} OccursAppend(c: char, s: string, t: string)
    ensures Occurs(c, s + t) == Occurs(c, s) + Occurs(c, t)
  {
    if s == [] {
      assert s + t == t;
    } else {
      assert (s + t)[1..] == s[1..] + t;
      OccursAppend(c, s[1..], t);
    }
  }

  lemma {:induction false} DigitsOnly(c: char, x: nat)
    requires !IsDigit(c)
    ensures Occurs(c, Digits(x)) == 0
  {
    if x >= 10 {
      DigitsOnly(c, x / 10);
      OccursAppend(c, Digits(x / 10), [DigitOf(x % 10)]);
    }
  }

  lemma {:induction false} AsnsText(asns: seq<U32>, sep: char, c: char)
    requires !IsDigit(c)
    ensures Occurs(c, PrintAsns(asns, sep)) == if c == sep && asns != [] then |asns| - 1 else 0
  {
    if asns != [] {
      DigitsOnly(c, asns[0]);
      if |asns| > 1 {
        var rest := PrintAsns(asns[1..], sep);
        AsnsText(asns[1..], sep, c);
        OccursAppend(c, Digits(asns[0]), [sep] + rest);
        OccursAppend(c, [sep], rest);
      }
    }
  }

  /** What encloses a segment of each type: nothing for a sequence. */
  function Enclosing(typ: Byte): string
  {
    match typ case 1 => "{}" case 3 => "()" case 4 => "[]" case _ => ""
  }

  /**
    The text of a segment: braces around a set, parentheses and brackets around the confederation types,
    nothing around a sequence; commas between the numbers of a set, blanks between those of a sequence.
  */
  lemma SegmentText(s: Segment, c: char)
    requires s.typ in {1, 2, 3, 4} && !IsDigit(c)
    ensures var text, sep := PrintSegment(s), if s.typ in {1, 4} then ',' else ' ';
      && Occurs(c, text) ==
           (if c in Enclosing(s.typ) then 1 else 0) + (if c == sep && s.asns != [] then |s.asns| - 1 else 0)
      && (s.typ != 2 ==> |text| >= 2 && [text[0], text[|text| - 1]] == Enclosing(s.typ))
  {
    var body := PrintAsns(s.asns, Separator(s.typ));
    AsnsText(s.asns, Separator(s.typ), c);
    if s.typ != 2 {
      OccursAppend(c, [Open(s.typ)], body + [Close(s.typ)]);
      OccursAppend(c, body, [Close(s.typ)]);
    }
  }

  /** Segments stand in their order, with one blank between. */
  lemma PathText(p: Path)
    ensures p == [] ==> Print(p) == ""
    ensures |p| == 1 ==> Print(p) == PrintSegment(p[0])
    ensures |p| > 1 ==> Print(p) == PrintSegment(p[0]) + " " + Print(p[1..])
  {
  }

  // ---------- Tokens ----------

  datatype Token = Asval(asn: U32) | Start(typ: Byte) | End | Unknown

  datatype Lexed = Nothing | Lexed(token: Token, rest: string)

  predicate IsBlank(c: char) { IsSpace(c) || c == ',' }

  function Skip(s: string): (r: string)
    ensures |r| <= |s| && (r != [] ==> !IsBlank(r[0]))
  {
    if s == [] || !IsBlank(s[0]) then s else Skip(s[1..])
  }

  /** `aspath_gettoken`; a NUL ends the string. */
  function GetToken(s: string): (l: Lexed)
    ensures l.Lexed? && !l.token.Unknown? ==> |l.rest| < |s|
  {
    var r := Skip(s);
    if r == [] || r[0] == '\0' then Nothing
    else if r[0] == '{' then Lexed(Start(AS_SET), r[1..])
    else if r[0] == '(' then Lexed(Start(AS_CONFED_SEQUENCE), r[1..])
    else if r[0] == '[' then Lexed(Start(AS_CONFED_SET), r[1..])
    else if r[0] == '}' || r[0] == ')' || r[0] == ']' then Lexed(End, r[1..])
    else if IsDigit(r[0]) then
      AccumulateShrinks(r, 0);
      var a := Accumulate(r, 0);
      Lexed(Asval(a.0), a.1)
    else Lexed(Unknown, r)
  }

  lemma {:induction false} AccumulateShrinks(s: string, v: U32)
    ensures |Accumulate(s, v).1| <= |s| && (s != [] && IsDigit(s[0]) ==> |Accumulate(s, v).1| < |s|)
  {
    if s != [] && IsDigit(s[0]) { AccumulateShrinks(s[1..], ((v as int) * 10 + ValueOf(s[0])) % 0x1_0000_0000); }
  }

  // ---------- Parsing ----------

  datatype State = State(path: Path, typ: Byte, need: bool)

  datatype Result = Failed | Ok(path: Path)

  /** `aspath_as_add`: onto the last segment, if there is one. */
  function AddAsn(p: Path, asns: seq<U32>): Path
  {
    if p == [] then p
    else
      var n := |p| - 1;
      p[..n] + [Segment(p[n].typ, p[n].asns + asns)]
  }

  /** One turn of the switch in `aspath_str2aspath`. */
  function Feed(st: State, t: Token): State
    requires !t.Unknown?
  {
    match t
    case Asval(asn) =>
      State(AddAsn(if st.need then st.path + [Segment(st.typ, [])] else st.path, [asn]), st.typ, false)
    case Start(typ) => State(st.path + [Segment(typ, [])], typ, false)
    case End => State(st.path, AS_SEQUENCE, true)
  }

  function Run(st: State, s: string): Result
    decreases |s|
  {
    var l := GetToken(s);
    if l.Nothing? then Ok(st.path)
    else if l.token.Unknown? then Failed
    else Run(Feed(st, l.token), l.rest)
  }

  const INITIAL := State([], AS_SEQUENCE, true)

  /** `aspath_str2aspath`. */
  method Str2Aspath(str: string) returns (r: Result)
    ensures r == Run(INITIAL, str)
  {
    var st, s := INITIAL, str;
    while true
      invariant Run(INITIAL, str) == Run(st, s)
      decreases |s|
    {
      var l := GetToken(s);
      if l.Nothing? { return Ok(st.path); }
      if l.token.Unknown? { return Failed; }
      st, s := Feed(st, l.token), l.rest;
    }
  }

  // ---------- The buffer of the printer ----------

  /**
    `snprintf` at offset `len` of a buffer of `size` characters: what does not fit is lost, the length
    is told all the same.
  */
  function Snprintf(buf: string, size: int, text: string): string
    requires |buf| < size
  {
    buf + text[..Min(|text|, size - |buf| - 1)]
  }

  lemma SnprintfFits(buf: string, size: int, text: string)
    requires |buf| + |text| < size
    ensures Snprintf(buf, size, text) == buf + text
  {
    assert text[..|text|] == text;
  }

  const ASN_STR_LEN := 11
  const ASPATH_STR_DEFAULT_LEN := 32

  /** `assegment_count_asns`. */
  function CountAsns(p: Path): nat { if p == [] then 0 else |p[0].asns| + CountAsns(p[1..]) }

  lemma {:induction false} PrintAsnsLength(asns: seq<U32>, sep: char)
    ensures |PrintAsns(asns, sep)| + (if asns == [] then 0 else 1) <= |asns| * ASN_STR_LEN
  {
    if asns != [] {
      NumberLength(asns[0]);
      if |asns| > 1 { PrintAsnsLength(asns[1..], sep); }
    }
  }

  lemma {:induction false} PrintAsnsSnoc(asns: seq<U32>, x: U32, sep: char)
    requires asns != []
    ensures PrintAsns(asns + [x], sep) == PrintAsns(asns, sep) + ([sep] + Digits(x))
  {
    assert (asns + [x])[1..] == asns[1..] + [x];
    if |asns| == 1 {
      assert asns[1..] + [x] == [x];
    } else {
      PrintAsnsSnoc(asns[1..], x, sep);
      Regroup(Digits(asns[0]), [sep], PrintAsns(asns[1..], sep), [sep] + Digits(x));
    }
  }

  /** One AS number, and the separator unless it is the last one. */
  method WriteAsn(x: U32, last: bool, sep: char, buf: string, size: int) returns (out: string)
    requires |buf| + ASN_STR_LEN < size
    ensures out == buf + (Digits(x) + if last then [] else [sep]) && |out| <= |buf| + ASN_STR_LEN
  {
    NumberLength(x);
    SnprintfFits(buf, size, Digits(x));
    out := Snprintf(buf, size, Digits(x));
    if !last {
      SnprintfFits(out, size, [sep]);
      out := Snprintf(out, size, [sep]);
    }
  }

  /** What has been printed after `i` rounds: the separator is already there. */
  function Printed(asns: seq<U32>, sep: char, i: nat): string
    requires i <= |asns|
  {
    PrintAsns(asns[..i], sep) + if 0 < i < |asns| then [sep] else []
  }

  lemma PrintedStep(asns: seq<U32>, sep: char, i: nat)
    requires i < |asns|
    ensures Printed(asns, sep, i + 1)
        == Printed(asns, sep, i) + (Digits(asns[i]) + if i == |asns| - 1 then [] else [sep])
  {
    assert asns[..i + 1] == asns[..i] + [asns[i]];
    if i > 0 {
      PrintAsnsSnoc(asns[..i], asns[i], sep);
    } else {
      assert asns[..i] == [] && asns[..i + 1] == [asns[i]];
    }
  }

  /** The loop over the AS numbers of a segment, into a buffer with room for all of them. */
  method WriteAsns(asns: seq<U32>, sep: char, buf: string, size: int) returns (out: string)
    requires |buf| + |asns| * ASN_STR_LEN < size
    ensures out == buf + PrintAsns(asns, sep) && |out| <= |buf| + |asns| * ASN_STR_LEN
  {
    out := buf;
    var i := 0;
    assert asns[..0] == [];
    while i < |asns|
      invariant 0 <= i <= |asns|
      invariant out == buf + Printed(asns, sep, i) && |out| <= |buf| + i * ASN_STR_LEN
    {
      PrintedStep(asns, sep, i);
      out := WriteAsn(asns[i], i == |asns| - 1, sep, out, size);
      i := i + 1;
    }
    assert asns[..|asns|] == asns;
  }

  /** One segment, into a buffer with room for its digits, separators, delimiters and a trailing space. */
  method WriteSegment(s: Segment, buf: string, size: int) returns (out: string)
    requires |buf| + |s.asns| * ASN_STR_LEN + 4 <= size
    ensures out == buf + PrintSegment(s) && |out| + 2 <= size
  {
    out := buf;
    if s.typ != AS_SEQUENCE {
      SnprintfFits(out, size, [Open(s.typ)]);
      out := Snprintf(out, size, [Open(s.typ)]);
    }
    out := WriteAsns(s.asns, Separator(s.typ), out, size);
    if s.typ != AS_SEQUENCE {
      SnprintfFits(out, size, [Close(s.typ)]);
      out := Snprintf(out, size, [Close(s.typ)]);
    }
  }

  /** One round: the buffer grows if it must, then the segment, then a space if more follows. */
  method WriteRound(s: Segment, more: bool, buf: string, size: int) returns (out: string, size': int)
    ensures out == buf + (PrintSegment(s) + if more then [' '] else []) && |out| < size'
  {
    size' := size;
    if |buf| + |s.asns| * ASN_STR_LEN + 4 > size {
      size' := |buf| + |s.asns| * ASN_STR_LEN + 4;
    }
    out := WriteSegment(s, buf, size');
    if more {
      SnprintfFits(out, size', [' ']);
      out := Snprintf(out, size', [' ']);
    }
  }

  lemma PrintStep(p: Path)
    requires p != []
    ensures Print(p) == PrintSegment(p[0]) + (if |p| > 1 then [' '] else []) + Print(p[1..])
  {
  }

  datatype Text = NoText | Text(str: string)

  /**
    `aspath_make_str_count`, with the buffer size as it grows.  A segment of unknown type
    leaves the path without text; otherwise nothing is ever cut off, and the length stays
    below the allocated size.
  */
  method MakeStr(p: Path) returns (r: Text, size: int)
    ensures r == if Typed(p) then Text(Print(p)) else NoText
    ensures r.Text? ==> |r.str| < size
  {
    if p == [] { return Text([]), 1; }
    size := Max(CountAsns(p) * ASN_STR_LEN + 2 + 1, ASPATH_STR_DEFAULT_LEN);
    var str, rest := [], p;
    assert Progress(p, str, rest);
    while rest != []
      invariant Progress(p, str, rest) && |str| < size
      decreases |rest|
    {
      if !ValidType(rest[0].typ) {
        TypedCons(rest);
        return NoText, size;
      }
      ProgressStep(p, str, rest);
      str, size := WriteRound(rest[0], |rest| > 1, str, size);
      rest := rest[1..];
    }
    r := Text(str);
  }

  /** What has been printed, and what has yet to be. */
  ghost predicate Progress(p: Path, str: string, rest: Path)
  {
    (Typed(p) <==> Typed(rest)) && Print(p) == str + Print(rest)
  }

  lemma ProgressStep(p: Path, str: string, rest: Path)
    requires Progress(p, str, rest) && rest != [] && ValidType(rest[0].typ)
    ensures Progress(p, str + (PrintSegment(rest[0]) + if |rest| > 1 then [' '] else []), rest[1..])
  {
    TypedCons(rest);
    PrintStep(rest);
    Associate(str, PrintSegment(rest[0]) + (if |rest| > 1 then [' '] else []), Print(rest[1..]));
  }

  lemma TypedCons(p: Path)
    requires p != []
    ensures Typed(p) <==> ValidType(p[0].typ) && Typed(p[1..])
  {
    assert p == [p[0]] + p[1..];
  }

  // ---------- Reading back what was printed ----------

  lemma SkipBlank(c: char, s: string)
    requires IsBlank(c)
    ensures GetToken([c] + s) == GetToken(s)
  {
    assert ([c] + s)[1..] == s;
  }

  lemma RunBlank(st: State, c: char, s: string)
    requires IsBlank(c)
    ensures Run(st, [c] + s) == Run(st, s)
  {
    SkipBlank(c, s);
  }

  lemma RunNumber(st: State, x: U32, rest: string)
    requires NoDigitFirst(rest)
    ensures Run(st, Digits(x) + rest) == Run(Feed(st, Asval(x)), rest)
  {
    NumberRoundTrip(x, rest);
    assert (Digits(x) + rest)[0] == Digits(x)[0];
  }

  lemma RunOpen(st: State, t: Byte, rest: string)
    requires ValidType(t) && t != AS_SEQUENCE
    ensures Run(st, [Open(t)] + rest) == Run(Feed(st, Start(t)), rest)
  {
    assert ([Open(t)] + rest)[1..] == rest;
  }

  lemma RunClose(st: State, t: Byte, rest: string)
    ensures Run(st, [Close(t)] + rest) == Run(Feed(st, End), rest)
  {
    assert ([Close(t)] + rest)[1..] == rest;
  }

  lemma AddAsnTwice(p: Path, a: seq<U32>, b: seq<U32>)
    ensures AddAsn(AddAsn(p, a), b) == AddAsn(p, a + b)
  {
    if p != [] {
      var n := |p| - 1;
      assert AddAsn(p, a)[..n] == p[..n];
      assert p[n].asns + a + b == p[n].asns + (a + b);
    }
  }

  /** Inside a segment, a list of numbers is appended to it. */
  lemma {:induction false} RunAsns(p: Path, t: Byte, asns: seq<U32>, sep: char, rest: string)
    requires asns != [] && IsBlank(sep) && NoDigitFirst(rest)
    ensures Run(State(p, t, false), PrintAsns(asns, sep) + rest) == Run(State(AddAsn(p, asns), t, false), rest)
    decreases |asns|
  {
    if |asns| == 1 {
      RunNumber(State(p, t, false), asns[0], rest);
      assert asns == [asns[0]];
    } else {
      var tail := PrintAsns(asns[1..], sep) + rest;
      Associate(Digits(asns[0]), [sep] + PrintAsns(asns[1..], sep), rest);
      Associate([sep], PrintAsns(asns[1..], sep), rest);
      RunNumber(State(p, t, false), asns[0], [sep] + tail);
      var p1 := AddAsn(p, [asns[0]]);
      RunBlank(State(p1, t, false), sep, tail);
      RunAsns(p1, t, asns[1..], sep, rest);
      AddAsnTwice(p, [asns[0]], asns[1..]);
      assert [asns[0]] + asns[1..] == asns;
    }
  }

  /** Between segments; a number here continues an AS_SEQUENCE or starts one. */
  function Between(p: Path): State
  {
    State(p, AS_SEQUENCE, p == [] || !p[|p| - 1].IsSequence())
  }

  /** What reading back does to a segment: an empty sequence vanishes, one after another sequence is joined to it. */
  function Joined(p: Path, s: Segment): Path
  {
    if !s.IsSequence() then p + [s]
    else if s.asns == [] then p
    else AddAsn(if Between(p).need then p + [Segment(AS_SEQUENCE, [])] else p, s.asns)
  }

  lemma NewSegment(p: Path, t: Byte, asns: seq<U32>)
    ensures AddAsn(p + [Segment(t, [])], asns) == p + [Segment(t, asns)]
  {
    assert (p + [Segment(t, [])])[..|p|] == p;
    assert [] + asns == asns;
  }

  /** A number read with `needtype` set opens the segment first. */
  lemma RunFirst(p: Path, asns: seq<U32>, sep: char, rest: string)
    requires asns != [] && IsBlank(sep) && NoDigitFirst(rest)
    ensures Run(State(p, AS_SEQUENCE, true), PrintAsns(asns, sep) + rest)
         == Run(State(p + [Segment(AS_SEQUENCE, [])], AS_SEQUENCE, false), PrintAsns(asns, sep) + rest)
  {
    var st, st1 := State(p, AS_SEQUENCE, true), State(p + [Segment(AS_SEQUENCE, [])], AS_SEQUENCE, false);
    var tail := if |asns| == 1 then rest else [sep] + PrintAsns(asns[1..], sep) + rest;
    assert PrintAsns(asns, sep) + rest == Digits(asns[0]) + tail;
    RunNumber(st, asns[0], tail);
    RunNumber(st1, asns[0], tail);
  }

  lemma SequenceRead(p: Path, s: Segment, rest: string)
    requires s.IsSequence() && NoDigitFirst(rest)
    ensures Run(Between(p), PrintSegment(s) + rest) == Run(Between(Joined(p, s)), rest)
  {
    if s.asns == [] {
      assert PrintSegment(s) + rest == rest;
    } else {
      SequenceJoined(p, s, rest);
    }
  }

  lemma SequenceJoined(p: Path, s: Segment, rest: string)
    requires s.IsSequence() && s.asns != [] && NoDigitFirst(rest)
    ensures Run(Between(p), PrintAsns(s.asns, ' ') + rest) == Run(Between(Joined(p, s)), rest)
  {
    var q := if Between(p).need then p + [Segment(AS_SEQUENCE, [])] else p;
    if Between(p).need { RunFirst(p, s.asns, ' ', rest); }
    RunAsns(q, AS_SEQUENCE, s.asns, ' ', rest);
    assert Between(Joined(p, s)) == State(AddAsn(q, s.asns), AS_SEQUENCE, false);
  }

  lemma BracketRead(p: Path, s: Segment, rest: string)
    requires !s.IsSequence() && ValidType(s.typ)
    ensures Run(Between(p), PrintSegment(s) + rest) == Run(Between(Joined(p, s)), rest)
  {
    var body, sep := PrintAsns(s.asns, Separator(s.typ)), Separator(s.typ);
    var st := State(p + [Segment(s.typ, [])], s.typ, false);
    var after := [Close(s.typ)] + rest;
    assert PrintSegment(s) + rest == [Open(s.typ)] + (body + after);
    RunOpen(Between(p), s.typ, body + after);
    if s.asns == [] {
      assert body + after == after;
      assert s == Segment(s.typ, []);
      RunClose(st, s.typ, rest);
    } else {
      RunAsns(st.path, s.typ, s.asns, sep, after);
      NewSegment(p, s.typ, s.asns);
      RunClose(State(p + [s], s.typ, false), s.typ, rest);
    }
  }

  lemma SegmentRead(p: Path, s: Segment, rest: string)
    requires ValidType(s.typ) && NoDigitFirst(rest)
    ensures Run(Between(p), PrintSegment(s) + rest) == Run(Between(Joined(p, s)), rest)
  {
    if s.IsSequence() { SequenceRead(p, s, rest); } else { BracketRead(p, s, rest); }
  }

  /** All segments joined one after another to `p`. */
  function JoinedAll(p: Path, q: Path): Path
    decreases |q|
  {
    if q == [] then p else JoinedAll(Joined(p, q[0]), q[1..])
  }

  lemma {:induction false} PathRead(p: Path, q: Path)
    requires Typed(q)
    ensures Run(Between(p), Print(q)) == Ok(JoinedAll(p, q))
    decreases |q|
  {
    if q != [] {
      assert q[0] in q;
      PathRead(Joined(p, q[0]), q[1..]);
      if |q| == 1 {
        SegmentRead(p, q[0], []);
        assert PrintSegment(q[0]) + [] == PrintSegment(q[0]);
      } else {
        SegmentRead(p, q[0], [' '] + Print(q[1..]));
        RunBlank(Between(Joined(p, q[0])), ' ', Print(q[1..]));
      }
    }
  }

  // ---------- When the path comes back ----------

  /** No empty AS_SEQUENCE and none next to another. */
  ghost predicate Separated(p: Path)
  {
    NoEmptySequence(p) && forall i | 0 <= i < |p| - 1 :: !(p[i].IsSequence() && p[i + 1].IsSequence())
  }

  lemma JoinedSeparated(p: Path, s: Segment)
    requires Separated(p)
    ensures Separated(Joined(p, s))
  {
    if s.IsSequence() && s.asns != [] && Between(p).need { NewSegment(p, AS_SEQUENCE, s.asns); }
  }

  lemma {:induction false} JoinedAllSeparated(p: Path, q: Path)
    requires Separated(p)
    ensures Separated(JoinedAll(p, q))
    decreases |q|
  {
    if q != [] {
      JoinedSeparated(p, q[0]);
      JoinedAllSeparated(Joined(p, q[0]), q[1..]);
    }
  }

  lemma {:induction false} SeparatedStays(p: Path, q: Path)
    requires Separated(p + q)
    ensures JoinedAll(p, q) == p + q
    decreases |q|
  {
    if q == [] {
      assert p + q == p;
    } else {
      assert (p + q)[|p|] == q[0] && q[0] in p + q;
      assert p != [] ==> (p + q)[|p| - 1] == p[|p| - 1];
      NewSegment(p, AS_SEQUENCE, q[0].asns);
      assert Joined(p, q[0]) == p + [q[0]];
      SnocCons(p, q);
      SeparatedStays(p + [q[0]], q[1..]);
    }
  }

  lemma SnocCons<T>(p: seq<T>, q: seq<T>)
    requires q != []
    ensures p + [q[0]] + q[1..] == p + q
  {
  }

  lemma {:induction false} MeaningAppend(p: Path, q: Path)
    ensures Meaning(p + q) == Meaning(p) + Meaning(q)
  {
    if p == [] {
      assert p + q == q;
    } else {
      MeaningAppend(p[1..], q);
      ConsAppend(p, q);
      MeaningCons(p[0], p[1..] + q);
      Associate(Items(p[0]), Meaning(p[1..]), Meaning(q));
    }
  }

  lemma MeaningOne(s: Segment)
    ensures Meaning([s]) == Items(s)
  {
    assert [s][1..] == [];
  }

  lemma MeaningSnoc(f: Path, s: Segment)
    ensures Meaning(f + [s]) == Meaning(f) + Items(s)
  {
    MeaningAppend(f, [s]);
    MeaningOne(s);
  }

  lemma MeaningAddAsn(p: Path, asns: seq<U32>)
    requires p != [] && p[|p| - 1].IsSequence()
    ensures Meaning(AddAsn(p, asns)) == Meaning(p) + Items(Segment(AS_SEQUENCE, asns))
  {
    var n := |p| - 1;
    var f, s, t := p[..n], p[n], Segment(AS_SEQUENCE, p[n].asns + asns);
    assert p == f + [s] && AddAsn(p, asns) == f + [t] && s == Segment(AS_SEQUENCE, s.asns);
    MeaningSnoc(f, s);
    MeaningSnoc(f, t);
    ItemsOfMerged(s.asns, asns);
    Associate(Meaning(f), Items(s), Items(Segment(AS_SEQUENCE, asns)));
  }

  lemma JoinedMeaning(p: Path, s: Segment)
    ensures Meaning(Joined(p, s)) == Meaning(p) + Items(s)
  {
    if s.IsSequence() && !Between(p).need {
      assert s == Segment(AS_SEQUENCE, s.asns);
      if s.asns == [] { assert Items(s) == []; } else { MeaningAddAsn(p, s.asns); }
    } else if s.IsSequence() && s.asns == [] {
      assert Items(s) == [];
    } else {
      NewSegment(p, s.typ, s.asns);
      assert Joined(p, s) == p + [s];
      MeaningAppend(p, [s]);
      MeaningOne(s);
    }
  }

  lemma {:induction false} JoinedAllMeaning(p: Path, q: Path)
    ensures Meaning(JoinedAll(p, q)) == Meaning(p) + Meaning(q)
    decreases |q|
  {
    if q != [] {
      JoinedMeaning(p, q[0]);
      JoinedAllMeaning(Joined(p, q[0]), q[1..]);
      Associate(Meaning(p), Items(q[0]), Meaning(q[1..]));
    }
  }

  /**
    Reading back what was printed never fails and keeps the meaning of the path; it gives the
    path itself exactly when no AS_SEQUENCE is empty or next to another.
  */
  lemma StringRoundTrip(p: Path)
    requires Typed(p)
    ensures Run(INITIAL, Print(p)).Ok? && Meaning(Run(INITIAL, Print(p)).path) == Meaning(p)
    ensures Run(INITIAL, Print(p)) == Ok(p) <==> Separated(p)
  {
    assert INITIAL == Between([]);
    PathRead([], p);
    JoinedAllSeparated([], p);
    JoinedAllMeaning([], p);
    assert [] + p == p;
    if Separated(p) { SeparatedStays([], p); }
  }

  /** In particular for the normal form of a path without empty AS_SEQUENCE segments. */
  lemma NormalStringRoundTrip(p: Path)
    requires Typed(p) && NoEmptySequence(p)
    ensures Typed(Normalise(p)) && Run(INITIAL, Print(Normalise(p))) == Ok(Normalise(p))
  {
    NormaliseTyped(p);
    NormaliseIsNormal(p);
    NormaliseNoEmpty(p);
    StringRoundTrip(Normalise(p));
  }

  lemma {:induction false} NormaliseTyped(p: Path)
    requires Typed(p)
    ensures Typed(Normalise(p))
  {
    if p != [] {
      assert p[0] in p;
      NormaliseTyped(p[1..]);
    }
  }
}

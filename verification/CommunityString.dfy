/**
  Community attributes as text (quagga-srx/bgpd/bgp_community.c): the printer
  with its precomputed length, and the parser whose do-while loop adds the last
  value twice.
*/
module CommunityString {
  import opened Octets
  import opened Lists
  import opened Decimal
  import opened Sorting
  import opened Community

  const COMMUNITY_INTERNET: U32 := 0
  const COMMUNITY_NO_EXPORT: U32 := 0xFFFFFF01
  const COMMUNITY_NO_ADVERTISE: U32 := 0xFFFFFF02
  const COMMUNITY_LOCAL_AS: U32 := 0xFFFFFF03

  // ---------- Printing ----------

  function AsVal(v: U32): string { Digits(v / 0x10000) + ([':'] + Digits(v % 0x10000)) }

  function Word(v: U32): string
  {
    if v == COMMUNITY_INTERNET then "internet"
    else if v == COMMUNITY_NO_EXPORT then "no-export"
    else if v == COMMUNITY_NO_ADVERTISE then "no-advertise"
    else if v == COMMUNITY_LOCAL_AS then "local-AS"
    else AsVal(v)
  }

  /** The well-known communities of RFC 1997 by name, any other as two numbers of 16 bits. */
  lemma WordSpelled(v: U32)
    ensures v == 0 ==> Word(v) == "internet"
    ensures v == 4294967041 ==> Word(v) == "no-export"
    ensures v == 4294967042 ==> Word(v) == "no-advertise"
    ensures v == 4294967043 ==> Word(v) == "local-AS"
    ensures v != 0 && !(4294967041 <= v <= 4294967043) ==> Word(v) == Digits(v / 65536) + ":" + Digits(v % 65536)
  {
  }

  /** One blank between the words. */
  lemma WordsSpelled(s: seq<U32>, v: U32)
    ensures Words([]) == "" && Words([v]) == Word(v)
    ensures s != [] ==> Words(s + [v]) == Words(s) + " " + Word(v)
  {
    assert [v][..0] == [] && Words([v]) == Words([]) + Spaced(true, Word(v));
    if s != [] { OneMore(s, v, s + [v]); }
  }

  lemma OneMore(s: seq<U32>, v: U32, t: seq<U32>)
    requires s != [] && t == s + [v]
    ensures Words(t) == Words(s) + " " + Word(v)
  {
    assert t[..|s|] == s && t[|s|] == v;
    Associate(Words(s), " ", Word(v));
  }

  /** What the first loop reserves for one value, a space included. */
  function Reserved(v: U32): nat
  {
    if v == COMMUNITY_INTERNET then |" internet"|
    else if v == COMMUNITY_NO_EXPORT then |" no-export"|
    else if v == COMMUNITY_NO_ADVERTISE then |" no-advertise"|
    else if v == COMMUNITY_LOCAL_AS then |" local-AS"|
    else |" 65536:65535"|
  }

  function Words(s: seq<U32>): string
  {
    if s == [] then []
    else
      var n := |s| - 1;
      Words(s[..n]) + Spaced(n == 0, Word(s[n]))
  }

  function Spaced(first: bool, word: string): string { if first then word else [' '] + word }

  function Length(s: seq<U32>): nat { if s == [] then 0 else Length(s[..|s| - 1]) + Reserved(s[|s| - 1]) }

  lemma ShortLength(n: nat)
    requires n < 0x10000
    ensures |Digits(n)| <= 5
  {
    assert Ten(5) == 100_000;
    DigitsLength(n, 5);
  }

  lemma WordFits(v: U32)
    ensures |Word(v)| + 1 <= Reserved(v)
  {
    ShortLength(v / 0x10000);
    ShortLength(v % 0x10000);
  }

  /** The printed string and its final NUL fit the precomputed length, at every step. */
  lemma {:induction false} WordsFit(s: seq<U32>)
    requires s != []
    ensures |Words(s)| + 1 <= Length(s)
  {
    var n := |s| - 1;
    WordFits(s[n]);
    if n > 0 { WordsFit(s[..n]); }
  }

  lemma {:induction false} LengthGrows(s: seq<U32>, i: nat)
    requires i <= |s|
    ensures Length(s[..i]) <= Length(s)
  {
    if i == |s| {
      assert s[..i] == s;
    } else {
      LengthGrows(s[..|s| - 1], i);
      assert s[..|s| - 1][..i] == s[..i];
    }
  }

  /** `strcpy` and `sprintf`: the text and a NUL. */
  method Strcpy(str: array<char>, at: nat, text: string)
    requires at + |text| < str.Length
    modifies str
    ensures str[..at + |text|] == old(str[..at]) + text && str[at + |text|] == '\0'
  {
    var i := 0;
    while i < |text|
      invariant 0 <= i <= |text| && str[..at] == old(str[..at]) && str[at..at + i] == text[..i]
    {
      str[at + i] := text[i];
      i := i + 1;
    }
    str[at + |text|] := '\0';
    assert str[..at + |text|] == str[..at] + str[at..at + |text|];
  }

  method Measure(s: seq<U32>) returns (len: nat)
    ensures len == Length(s)
  {
    len := 0;
    var i := 0;
    assert s[..0] == [];
    while i < |s|
      invariant 0 <= i <= |s| && len == Length(s[..i])
    {
      assert s[..i + 1][..i] == s[..i];
      len := len + Reserved(s[i]);
      i := i + 1;
    }
    assert s[..|s|] == s;
  }

  /** The text `w` and its NUL are in the buffer. */
  ghost predicate Reads(str: array<char>, pnt: nat, w: string)
    reads str
  {
    pnt < str.Length && str[..pnt] == w && str[pnt] == '\0'
  }

  /** One round of the filling loop. */
  method WriteWord(str: array<char>, pnt: nat, first: bool, word: string, ghost w: string) returns (pnt': nat)
    requires Reads(str, pnt, w) && |w + Spaced(first, word)| < str.Length
    modifies str
    ensures Reads(str, pnt', w + Spaced(first, word))
  {
    pnt' := pnt;
    if !first {
      str[pnt] := ' ';
      pnt' := pnt + 1;
      assert str[..pnt'] == w + [' '];
    }
    ghost var front := str[..pnt'];
    Strcpy(str, pnt', word);
    pnt' := pnt' + |word|;
    assert str[..pnt'] == front + word == w + Spaced(first, word);
  }

  lemma WordsSnoc(s: seq<U32>, i: nat)
    requires i < |s|
    ensures Words(s[..i + 1]) == Words(s[..i]) + Spaced(i == 0, Word(s[i])) && |Words(s[..i + 1])| < Length(s)
  {
    WordsUnfold(s[..i + 1], s[..i], s[i]);
    WordsFit(s[..i + 1]);
    LengthGrows(s, i + 1);
  }

  lemma WordsUnfold(s: seq<U32>, t: seq<U32>, v: U32)
    requires s == t + [v]
    ensures Words(s) == Words(t) + Spaced(t == [], Word(v))
    ensures t == [] ==> Words(s) == Word(v)
  {
    assert s[..|t|] == t;
  }

  /** `w` is the text of the first `i` values. */
  ghost predicate Upto(s: seq<U32>, i: nat, w: string) { i <= |s| && w == Words(s[..i]) }

  lemma UptoNext(s: seq<U32>, i: nat, w: string, next: string)
    requires Upto(s, i, w) && i < |s| && next == w + Spaced(i == 0, Word(s[i]))
    ensures Upto(s, i + 1, next) && |next| < Length(s)
  {
    WordsSnoc(s, i);
  }

  lemma UptoEnds(s: seq<U32>, w: string)
    ensures Upto(s, 0, []) && (Upto(s, |s|, w) ==> w == Words(s))
  {
    assert s[..0] == [] && s[..|s|] == s;
  }

  method FillRound(s: seq<U32>, i: nat, str: array<char>, pnt: nat, ghost w: string)
    returns (pnt': nat, ghost w': string)
    requires i < |s| && str.Length == Length(s) && Upto(s, i, w) && Reads(str, pnt, w)
    modifies str
    ensures Upto(s, i + 1, w') && Reads(str, pnt', w')
  {
    w' := w + Spaced(i == 0, Word(s[i]));
    UptoNext(s, i, w, w');
    pnt' := WriteWord(str, pnt, i == 0, Word(s[i]), w);
  }

  /** The filling loop. */
  method Fill(s: seq<U32>, str: array<char>) returns (pnt: nat)
    requires s != [] && str.Length == Length(s) > 0 && str[0] == '\0'
    modifies str
    ensures Reads(str, pnt, Words(s))
  {
    pnt := 0;
    var i := 0;
    ghost var w: string := [];
    UptoEnds(s, w);
    while i < |s|
      invariant Upto(s, i, w) && Reads(str, pnt, w)
    {
      pnt, w := FillRound(s, i, str, pnt, w);
      i := i + 1;
    }
    UptoEnds(s, w);
  }

  /** `community_com2str`: every write stays inside the allocation, which the result and its NUL never exceed. */
  method Com2Str(s: seq<U32>) returns (str: array<char>, pnt: nat)
    ensures pnt < str.Length && str[..pnt] == Words(s) && str[pnt] == '\0'
    ensures str.Length == if s == [] then 1 else Length(s)
  {
    if s == [] {
      str := new char[1](_ => '\0');
      return str, 0;
    }
    var len := Measure(s);
    WordsFit(s);
    str := new char[len](_ => '\0');
    pnt := Fill(s, str);
  }

  // ---------- Tokens ----------

  datatype Lexed = EndOfLine | Bad | Value(val: U32, rest: string)

  predicate IsAlpha(c: char) { 'a' <= c <= 'z' || 'A' <= c <= 'Z' }

  function Skip(s: string): (r: string)
    ensures |r| <= |s| && (r != [] ==> !IsSpace(r[0]))
  {
    if s == [] || !IsSpace(s[0]) then s else Skip(s[1..])
  }

  /** The loop over digits and the colon; arithmetic in 32 bits. */
  function Scan(s: string, separator: bool, digit: bool, low: U32, high: U32): (l: Lexed)
    ensures l.Value? ==> |l.rest| <= |s| && (!digit ==> |l.rest| < |s|)
  {
    if s != [] && s[0] == ':' then
      if separator then Bad else Scan(s[1..], true, false, 0, (low as int) * 0x10000 % 0x1_0000_0000)
    else if s != [] && IsDigit(s[0]) then
      Scan(s[1..], separator, true, ((low as int) * 10 + ValueOf(s[0])) % 0x1_0000_0000, high)
    else if !digit then Bad
    else Value(((high as int) + low) % 0x1_0000_0000, s)
  }

  /** `community_gettoken`. */
  function GetToken(s: string): (l: Lexed)
    ensures l.Value? ==> |l.rest| < |s|
  {
    var r := Skip(s);
    if r == [] || r[0] == '\0' then EndOfLine
    else if IsAlpha(r[0]) then
      if "internet" <= r then Value(COMMUNITY_INTERNET, r[8..])
      else if "no-export" <= r then Value(COMMUNITY_NO_EXPORT, r[9..])
      else if "no-advertise" <= r then Value(COMMUNITY_NO_ADVERTISE, r[12..])
      else if "local-AS" <= r then Value(COMMUNITY_LOCAL_AS, r[8..])
      else Bad
    else if IsDigit(r[0]) then Scan(r, false, false, 0, 0)
    else Bad
  }

  // ---------- Parsing ----------

  datatype Result = Null | Com(val: seq<U32>)

  /** The do-while loop: at the end of the line the last token is still there and is added again. */
  function Collect(s: string, acc: seq<U32>): Result
    decreases |s|
  {
    match GetToken(s)
    case Bad => Null
    case EndOfLine => if acc == [] then Null else Com(acc + [acc[|acc| - 1]])
    case Value(v, rest) => Collect(rest, acc + [v])
  }

  function Str2Com(s: string): Result
  {
    var r := Collect(s, []);
    if r.Null? then Null else Com(UniqSort(r.val))
  }

  /** `community_str2com`; `known` is false while the token is still unknown. */
  method ParseCommunity(str: string) returns (r: Result)
    ensures r == Str2Com(str)
  {
    var com: seq<U32>, val: U32, known, s, more := [], 0, false, str, true;
    while more
      invariant known == (com != []) && (known ==> val == com[|com| - 1])
      invariant Collect(str, []) == if more then Collect(s, com) else Com(com)
      decreases more, |s|
    {
      var l := GetToken(s);
      match l {
        case Bad => known, more := false, false;
        case EndOfLine => more := false;
        case Value(v, rest) => val, known, s := v, true, rest;
      }
      if !known { return Null; }
      com := com + [val];
    }
    var c := new Community();
    c.val := com;
    var sorted := c.UniqSorted();
    r := Com(sorted.val);
  }

  // ---------- Reading back what was printed ----------

  predicate Ends(s: string) { s == [] || s[0] == ' ' }

  lemma ScanOne(d: nat, rest: string, separator: bool, digit: bool, q: U32, n: U32, high: U32)
    requires d < 10 && n == (q as int) * 10 + d
    ensures Scan([DigitOf(d)] + rest, separator, digit, q, high) == Scan(rest, separator, true, n, high)
  {
    assert ([DigitOf(d)] + rest)[1..] == rest;
  }

  lemma {:induction false} ScanDigits(n: U32, rest: string, separator: bool, digit: bool, high: U32)
    ensures Scan(Digits(n) + rest, separator, digit, 0, high) == Scan(rest, separator, true, n, high)
  {
    if n < 10 {
      ScanOne(n, rest, separator, digit, 0, n, high);
    } else {
      var q, d := n / 10, n % 10;
      ScanDigits(q, [DigitOf(d)] + rest, separator, digit, high);
      Associate(Digits(q), [DigitOf(d)], rest);
      ScanOne(d, rest, separator, true, q, n, high);
    }
  }

  lemma ScanColon(low: U32, high: U32, s: string)
    requires high == (low as int) * 0x10000
    ensures Scan([':'] + s, false, true, low, 0) == Scan(s, true, false, 0, high)
  {
    assert ([':'] + s)[1..] == s;
  }

  lemma ScanEnd(low: U32, high: U32, rest: string, v: U32)
    requires Ends(rest) && v == (high as int) + low
    ensures Scan(rest, true, true, low, high) == Value(v, rest)
  {
  }

  lemma ScanLow(hi: U32, lo: U32, rest: string)
    requires Ends(rest) && hi < 0x10000 && lo < 0x10000
    ensures Scan([':'] + (Digits(lo) + rest), false, true, hi, 0) == Value((hi as int) * 0x10000 + lo, rest)
  {
    var high: U32, v: U32 := (hi as int) * 0x10000, (hi as int) * 0x10000 + lo;
    ScanColon(hi, high, Digits(lo) + rest);
    ScanDigits(lo, rest, true, false, high);
    ScanEnd(lo, high, rest, v);
  }

  lemma ScanAsVal(v: U32, rest: string)
    requires Ends(rest)
    ensures Scan(AsVal(v) + rest, false, false, 0, 0) == Value(v, rest)
  {
    var hi: U32, lo: U32 := v / 0x10000, v % 0x10000;
    Associate(Digits(hi), [':'] + Digits(lo), rest);
    Associate([':'], Digits(lo), rest);
    ScanDigits(hi, [':'] + (Digits(lo) + rest), false, false, 0);
    ScanLow(hi, lo, rest);
  }

  lemma AsValToken(v: U32, rest: string)
    requires Ends(rest)
    ensures GetToken(AsVal(v) + rest) == Value(v, rest)
  {
    ScanAsVal(v, rest);
    var s := AsVal(v) + rest;
    assert IsDigit(s[0]) by { assert s[0] == Digits(v / 0x10000)[0]; }
  }

  lemma WordToken(v: U32, rest: string)
    requires Ends(rest)
    ensures GetToken(Word(v) + rest) == Value(v, rest)
  {
    var s := Word(v) + rest;
    if v == COMMUNITY_INTERNET {
      assert s[8..] == rest && s[..8] == "internet";
    } else if v == COMMUNITY_NO_EXPORT {
      assert s[9..] == rest && s[..9] == "no-export" && s[0] == 'n';
    } else if v == COMMUNITY_NO_ADVERTISE {
      assert s[12..] == rest && s[..12] == "no-advertise" && s[0] == 'n' && s[3] == 'a';
      assert "no-export"[3] == 'e';
    } else if v == COMMUNITY_LOCAL_AS {
      assert s[8..] == rest && s[..8] == "local-AS" && s[0] == 'l';
    } else {
      AsValToken(v, rest);
    }
  }

  lemma SpaceToken(s: string)
    ensures GetToken([' '] + s) == GetToken(s)
  {
    assert ([' '] + s)[1..] == s;
  }

  /** A printed prefix of the list has been read when the rest of the text follows. */
  lemma {:induction false} WordsRead(s: seq<U32>, rest: string)
    requires Ends(rest)
    ensures Collect(Words(s) + rest, []) == Collect(rest, s)
  {
    if s == [] {
      assert Words(s) + rest == rest;
    } else {
      var n := |s| - 1;
      var t, v := s[..n], s[n];
      LastRead(t, v, rest);
      assert s == t + [v];
      WordsUnfold(s, t, v);
      if n > 0 {
        Associate(Words(t), [' '] + Word(v), rest);
        Associate([' '], Word(v), rest);
        WordsRead(t, [' '] + (Word(v) + rest));
        SpaceToken(Word(v) + rest);
      }
    }
  }

  lemma LastRead(acc: seq<U32>, v: U32, rest: string)
    requires Ends(rest)
    ensures Collect(Word(v) + rest, acc) == Collect(rest, acc + [v])
  {
    WordToken(v, rest);
  }

  /**
    Reading back what was printed gives the sorted set of values, so it is the identity exactly
    on strictly ascending lists; the empty list is not read back at all.
  */
  lemma CommunityRoundTrip(s: seq<U32>)
    ensures Str2Com(Words(s)) == if s == [] then Null else Com(UniqSort(s))
    ensures Str2Com(Words(s)) == Com(s) <==> s != [] && Ascending(s)
  {
    WordsRead(s, []);
    assert Words(s) + [] == Words(s);
    UniqSortFixed(s);
    if s != [] {
      var twice := s + [s[|s| - 1]];
      forall x: U32 ensures x in twice <==> x in s {
        assert s[|s| - 1] in s;
      }
      UniqSortCanonical(twice, s);
    }
  }
}

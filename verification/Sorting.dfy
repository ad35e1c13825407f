/**
  `qsort` as the daemons use it.  Every comparison function here is a total order
  in which only equal elements tie, so the sorted arrangement is unique and an
  insertion sort stands for any of them.
*/
module Sorting {
  import opened Octets
  import opened Lists

  ghost predicate TotalOrder<T(!new)>(le: (T, T) -> bool)
  {
    && (forall x, y :: le(x, y) || le(y, x))
    && (forall x, y :: le(x, y) && le(y, x) ==> x == y)
    && (forall x, y, z :: le(x, y) && le(y, z) ==> le(x, z))
  }

  ghost predicate SortedBy<T>(le: (T, T) -> bool, s: seq<T>)
  {
    forall i, j | 0 <= i < j < |s| :: le(s[i], s[j])
  }

  function Insert<T>(le: (T, T) -> bool, x: T, s: seq<T>): (r: seq<T>)
    ensures |r| == |s| + 1 && multiset(r) == multiset(s) + multiset{x}
  {
    if s == [] || le(x, s[0]) then [x] + s
    else
      assert s == [s[0]] + s[1..];
      [s[0]] + Insert(le, x, s[1..])
  }

  function Sort<T>(le: (T, T) -> bool, s: seq<T>): (r: seq<T>)
    ensures |r| == |s| && multiset(r) == multiset(s)
  {
    if s == [] then []
    else
      assert s == [s[0]] + s[1..];
      Insert(le, s[0], Sort(le, s[1..]))
  }

  lemma {:induction false} InsertSorted<T(!new)>(le: (T, T) -> bool, x: T, s: seq<T>)
    requires TotalOrder(le) && SortedBy(le, s)
    ensures SortedBy(le, Insert(le, x, s))
  {
    if s != [] && !le(x, s[0]) {
      InsertSorted(le, x, s[1..]);
      var t := Insert(le, x, s[1..]);
      forall j | 0 <= j < |t| ensures le(s[0], t[j]) {
        assert t[j] in multiset(t);
        assert t[j] == x || t[j] in s[1..];
      }
    }
  }

  lemma {:induction false} SortSorts<T(!new)>(le: (T, T) -> bool, s: seq<T>)
    requires TotalOrder(le)
    ensures SortedBy(le, Sort(le, s))
  {
    if s != [] {
      SortSorts(le, s[1..]);
      InsertSorted(le, s[0], Sort(le, s[1..]));
    }
  }

  lemma {:induction false} HeadLeast<T(!new)>(le: (T, T) -> bool, s: seq<T>, x: T)
    requires TotalOrder(le) && SortedBy(le, s) && x in multiset(s)
    ensures le(s[0], x)
  {
    var i :| 0 <= i < |s| && s[i] == x;
    assert le(s[0], s[0]);
  }

  lemma TailMultiset<T>(s: seq<T>)
    requires s != []
    ensures multiset(s[1..]) == multiset(s) - multiset{s[0]}
  {
    assert s == [s[0]] + s[1..];
  }

  lemma SameHead<T(!new)>(le: (T, T) -> bool, s: seq<T>, t: seq<T>)
    requires TotalOrder(le) && SortedBy(le, s) && SortedBy(le, t) && multiset(s) == multiset(t) && s != [] && t != []
    ensures s[0] == t[0]
  {
    assert s[0] in multiset(s) && t[0] in multiset(t);
    HeadLeast(le, s, t[0]);
    HeadLeast(le, t, s[0]);
  }

  /** There is only one sorted arrangement. */
  lemma {:induction false} SortedUnique<T(!new)>(le: (T, T) -> bool, s: seq<T>, t: seq<T>)
    requires TotalOrder(le) && SortedBy(le, s) && SortedBy(le, t) && multiset(s) == multiset(t)
    ensures s == t
  {
    assert |s| == |multiset(s)| == |multiset(t)| == |t|;
    if s != [] {
      SameHead(le, s, t);
      TailMultiset(s);
      TailMultiset(t);
      SortedUnique(le, s[1..], t[1..]);
      SameCons(s, t);
    }
  }

  // ---------- Sets of numbers as strictly ascending lists ----------

  function IntLe(): (int, int) -> bool { (x, y) => x <= y }

  lemma IntLeIsTotalOrder()
    ensures TotalOrder(IntLe())
  {
  }

  predicate Ascending(s: seq<int>)
  {
    forall i, j | 0 <= i < j < |s| :: s[i] < s[j]
  }

  /** Drops every element that equals its predecessor. */
  function Dedup(s: seq<int>): seq<int>
  {
    if |s| <= 1 then s
    else
      var d := Dedup(s[..|s| - 1]);
      if s[|s| - 1] == s[|s| - 2] then d else d + [s[|s| - 1]]
  }

  lemma {:induction false} DedupSorted(s: seq<int>)
    requires SortedBy(IntLe(), s)
    ensures Ascending(Dedup(s)) && forall x :: x in Dedup(s) <==> x in s
    ensures s != [] ==> Dedup(s) != [] && Dedup(s)[|Dedup(s)| - 1] == s[|s| - 1]
  {
    if |s| > 1 {
      var n := |s| - 1;
      var d := Dedup(s[..n]);
      DedupSorted(s[..n]);
      assert s == s[..n] + [s[n]];
      assert d[|d| - 1] == s[n - 1] <= s[n] by { assert IntLe()(s[n - 1], s[n]); }
      assert s[n - 1] in s[..n] by { assert s[..n][n - 1] == s[n - 1]; }
    }
  }

  /** `qsort` and weeding out of duplicates. */
  function SortUniq(s: seq<int>): seq<int>
  {
    Dedup(Sort(IntLe(), s))
  }

  lemma SortUniqAscends(s: seq<int>)
    ensures Ascending(SortUniq(s)) && forall x :: x in SortUniq(s) <==> x in s
  {
    var t := Sort(IntLe(), s);
    IntLeIsTotalOrder();
    SortSorts(IntLe(), s);
    DedupSorted(t);
    assert forall x :: x in t <==> x in multiset(t);
    assert forall x :: x in s <==> x in multiset(s);
  }

  /** A set of numbers has one strictly ascending list. */
  lemma {:induction false} AscendingUnique(s: seq<int>, t: seq<int>)
    requires Ascending(s) && Ascending(t) && forall x :: x in s <==> x in t
    ensures s == t
  {
    if s != [] { assert s[0] in s && s[0] in t; }
    if t != [] { assert t[0] in t && t[0] in s; }
    if s != [] && t != [] {
      assert s[0] == t[0];
      forall x ensures x in s[1..] <==> x in t[1..] {
        assert x in s[1..] <==> x in s && x != s[0] by { assert s == [s[0]] + s[1..]; }
        assert x in t[1..] <==> x in t && x != t[0] by { assert t == [t[0]] + t[1..]; }
      }
      AscendingUnique(s[1..], t[1..]);
    }
  }

  // ---------- The same for 32-bit numbers ----------

  lemma InRange(asns: seq<U32>, r: seq<int>)
    requires forall x :: x in r ==> x in asns
    ensures forall i | 0 <= i < |r| :: 0 <= r[i] < 0x1_0000_0000
  {
    forall i | 0 <= i < |r| ensures 0 <= r[i] < 0x1_0000_0000 {
      var x := r[i];
      assert x in r;
      assert x in asns;
      var j :| 0 <= j < |asns| && asns[j] == x;
    }
  }

  lemma SameMembers(s: seq<U32>, t: seq<U32>)
    requires Ascending(s) && Ascending(t) && forall x: U32 :: x in s <==> x in t
    ensures s == t
  {
    forall x: int ensures x in s <==> x in t {
      if x in s { var i :| 0 <= i < |s| && s[i] == x; assert s[i] in t; }
      if x in t { var i :| 0 <= i < |t| && t[i] == x; assert t[i] in s; }
    }
    AscendingUnique(s, t);
  }
}

/**
  Community attributes (quagga-srx/bgpd/bgp_community.c): sets of 32-bit values,
  kept as strictly ascending lists so that one pass decides inclusion.
*/
module Community {
  import opened Octets
  import opened Lists
  import opened Sorting

  // ---------- Sorting without repetition ----------

  /** What the first loop of `community_uniq_sort` collects. */
  function Firsts(s: seq<U32>): seq<U32>
  {
    if s == [] then []
    else
      var n := |s| - 1;
      var f := Firsts(s[..n]);
      if s[n] in f then f else f + [s[n]]
  }

  lemma {:induction false} FirstsDistinct(s: seq<U32>)
    ensures Distinct(Firsts(s)) && forall x: U32 :: x in Firsts(s) <==> x in s
  {
    if s != [] {
      var n := |s| - 1;
      FirstsDistinct(s[..n]);
      assert s == s[..n] + [s[n]];
    }
  }

  /** The sorted arrangement; sorting does not leave the 32-bit range. */
  function Sorted(s: seq<U32>): (r: seq<U32>)
    ensures multiset(r) == multiset(s) && forall x: U32 :: x in r <==> x in s
  {
    var r := Sort<int>(IntLe(), s);
    assert forall x :: x in r <==> x in s by {
      assert forall x :: x in r <==> x in multiset(r);
      assert forall x :: x in s <==> x in multiset(s);
    }
    InRange(s, r);
    r
  }

  lemma DistinctMultiset(s: seq<int>, t: seq<int>)
    requires Distinct(s) && multiset(s) == multiset(t)
    ensures Distinct(t)
  {
    forall i, j | 0 <= i < j < |t| ensures t[i] != t[j] {
      if t[i] == t[j] {
        TwoCopies(t, i, j);
        OneCopy(s, t[i]);
        assert false;
      }
    }
  }

  lemma TwoCopies(t: seq<int>, i: nat, j: nat)
    requires i < j < |t| && t[i] == t[j]
    ensures multiset(t)[t[i]] >= 2
  {
    assert t == t[..i] + [t[i]] + t[i + 1..j] + [t[j]] + t[j + 1..];
  }

  lemma {:induction false} OneCopy(s: seq<int>, x: int)
    requires Distinct(s)
    ensures multiset(s)[x] <= 1
  {
    if s != [] {
      OneCopy(s[1..], x);
      assert s == [s[0]] + s[1..];
      assert s[0] !in s[1..];
    }
  }

  /** `community_uniq_sort`. */
  function UniqSort(s: seq<U32>): seq<U32> { Sorted(Firsts(s)) }

  /** The result is the strictly ascending list of the same values. */
  lemma UniqSortAscends(s: seq<U32>)
    ensures Ascending(UniqSort(s)) && forall x: U32 :: x in UniqSort(s) <==> x in s
  {
    var f, r := Firsts(s), UniqSort(s);
    FirstsDistinct(s);
    IntLeIsTotalOrder();
    SortSorts<int>(IntLe(), f);
    DistinctMultiset(f, r);
    forall i, j | 0 <= i < j < |r| ensures r[i] < r[j] {
      assert IntLe()(r[i], r[j]);
    }
  }

  /** It changes nothing exactly when the list is already strictly ascending. */
  lemma UniqSortFixed(s: seq<U32>)
    ensures UniqSort(s) == s <==> Ascending(s)
  {
    UniqSortAscends(s);
    if Ascending(s) { SameMembers(UniqSort(s), s); }
  }

  /** Two lists give the same attribute exactly when they hold the same values. */
  lemma UniqSortCanonical(s: seq<U32>, t: seq<U32>)
    ensures UniqSort(s) == UniqSort(t) <==> forall x: U32 :: x in s <==> x in t
  {
    UniqSortAscends(s);
    UniqSortAscends(t);
    if forall x: U32 :: x in s <==> x in t { SameMembers(UniqSort(s), UniqSort(t)); }
  }

  // ---------- Matching ----------

  /** `t` is left over when elements of `s` are struck out. */
  ghost predicate Subsequence(t: seq<U32>, s: seq<U32>)
  {
    t == [] || (s != [] && (Subsequence(t, s[1..]) || (t[0] == s[0] && Subsequence(t[1..], s[1..]))))
  }

  /** The single pass of `community_match`, which takes the first chance to match. */
  predicate Greedy(s: seq<U32>, t: seq<U32>)
  {
    if s == [] || t == [] then t == [] else Greedy(s[1..], if s[0] == t[0] then t[1..] else t)
  }

  lemma {:induction false} SubsequenceDrop(t: seq<U32>, s: seq<U32>)
    requires Subsequence(t, s) && t != []
    ensures Subsequence(t[1..], s)
  {
    if Subsequence(t, s[1..]) {
      SubsequenceDrop(t, s[1..]);
      if t[1..] != [] { assert Subsequence(t[1..], s[1..]); }
    } else {
      if t[1..] != [] { assert Subsequence(t[1..], s[1..]); }
    }
  }

  lemma {:induction false} GreedyFindsSubsequence(s: seq<U32>, t: seq<U32>)
    ensures Greedy(s, t) <==> Subsequence(t, s)
    decreases |s|
  {
    if s != [] && t != [] {
      GreedyFindsSubsequence(s[1..], t);
      GreedyFindsSubsequence(s[1..], t[1..]);
      if s[0] == t[0] && Subsequence(t, s[1..]) { SubsequenceDrop(t, s[1..]); }
    }
  }

  lemma {:induction false} SubsequenceMembers(t: seq<U32>, s: seq<U32>)
    requires Subsequence(t, s)
    ensures |t| <= |s| && forall x: U32 | x in t :: x in s
    decreases |s|
  {
    if t != [] {
      if Subsequence(t, s[1..]) {
        SubsequenceMembers(t, s[1..]);
      } else {
        SubsequenceMembers(t[1..], s[1..]);
        assert t == [t[0]] + t[1..];
      }
    }
  }

  lemma {:induction false} AscendingSubsequence(t: seq<U32>, s: seq<U32>)
    requires Ascending(s) && Ascending(t) && forall x: U32 | x in t :: x in s
    ensures Subsequence(t, s)
    decreases |s|
  {
    if t != [] {
      assert t[0] in t && t[0] in s;
      var k :| 0 <= k < |s| && s[k] == t[0];
      var t' := if t[0] == s[0] then t[1..] else t;
      forall x: U32 | x in t' ensures x in s[1..] {
        var i :| 0 <= i < |t'| && t'[i] == x;
        assert x in t && x in s && x != s[0];
        assert s == [s[0]] + s[1..];
      }
      AscendingSubsequence(t', s[1..]);
    }
  }

  /** On strictly ascending lists the single pass decides inclusion. */
  lemma GreedyDecidesInclusion(s: seq<U32>, t: seq<U32>)
    requires Ascending(s) && Ascending(t)
    ensures Greedy(s, t) <==> forall x: U32 | x in t :: x in s
  {
    GreedyFindsSubsequence(s, t);
    if Subsequence(t, s) { SubsequenceMembers(t, s); }
    if forall x: U32 | x in t :: x in s { AscendingSubsequence(t, s); }
  }

  // ---------- Deleting ----------

  /** `community_delete`. */
  function DeleteAll(s: seq<U32>, t: seq<U32>): seq<U32>
    decreases |t|
  {
    if t == [] then s else DeleteAll(Without(s, t[0]), t[1..])
  }

  /** The values of `s` that are not in `t`, in their order. */
  function Minus(s: seq<U32>, t: seq<U32>): seq<U32>
  {
    if s == [] then [] else (if s[0] in t then [] else [s[0]]) + Minus(s[1..], t)
  }

  lemma {:induction false} DelValMultiset(s: seq<U32>, v: U32)
    ensures multiset(Without(s, v)) == multiset(s) - multiset{v}
  {
    if s != [] {
      assert s == [s[0]] + s[1..];
      DelValMultiset(s[1..], v);
    }
  }

  /** Whatever the lists: one copy is deleted for every copy listed. */
  lemma {:induction false} DeleteMultiset(s: seq<U32>, t: seq<U32>)
    ensures multiset(DeleteAll(s, t)) == multiset(s) - multiset(t)
    decreases |t|
  {
    if t != [] {
      assert t == [t[0]] + t[1..];
      DelValMultiset(s, t[0]);
      DeleteMultiset(Without(s, t[0]), t[1..]);
    }
  }

  lemma {:induction false} MinusNothing(s: seq<U32>)
    ensures Minus(s, []) == s
  {
    if s != [] { MinusNothing(s[1..]); }
  }

  lemma {:induction false} MinusAbsent(s: seq<U32>, v: U32, t: seq<U32>)
    requires v !in s
    ensures Minus(s, [v] + t) == Minus(s, t)
  {
    if s != [] {
      assert s[0] in s;
      MinusAbsent(s[1..], v, t);
      assert s[0] in [v] + t <==> s[0] in t;
    }
  }

  lemma {:induction false} MinusDelVal(s: seq<U32>, v: U32, t: seq<U32>)
    requires Distinct(s)
    ensures Minus(Without(s, v), t) == Minus(s, [v] + t)
  {
    if s != [] {
      if s[0] == v {
        assert v !in s[1..];
        MinusAbsent(s[1..], v, t);
      } else {
        MinusDelVal(s[1..], v, t);
        var d := Without(s[1..], v);
        assert ([s[0]] + d)[1..] == d;
        assert s[0] in [v] + t <==> s[0] in t;
      }
    }
  }

  /** On lists without repetition it is set difference, and the order stays. */
  lemma {:induction false} DeleteIsMinus(s: seq<U32>, t: seq<U32>)
    requires Distinct(s)
    ensures DeleteAll(s, t) == Minus(s, t)
    decreases |t|
  {
    if t == [] {
      MinusNothing(s);
    } else {
      WithoutMembers(s, t[0]);
      MinusDelVal(s, t[0], t[1..]);
      DeleteIsMinus(Without(s, t[0]), t[1..]);
      assert t == [t[0]] + t[1..];
    }
  }

  lemma {:induction false} MinusMembers(s: seq<U32>, t: seq<U32>)
    ensures forall x: U32 :: x in Minus(s, t) <==> x in s && x !in t
  {
    if s != [] {
      assert s == [s[0]] + s[1..];
      MinusMembers(s[1..], t);
    }
  }

  lemma {:induction false} MinusOrder(s: seq<U32>, t: seq<U32>)
    ensures Subsequence(Minus(s, t), s) && (Ascending(s) ==> Ascending(Minus(s, t)))
  {
    if s != [] {
      var m := Minus(s[1..], t);
      MinusOrder(s[1..], t);
      if s[0] in t {
        assert Minus(s, t) == m;
      } else {
        assert Minus(s, t) == [s[0]] + m && ([s[0]] + m)[1..] == m;
        MinusMembers(s[1..], t);
        if Ascending(s) {
          forall j | 0 <= j < |m| ensures s[0] < m[j] {
            assert m[j] in m && m[j] in s[1..];
          }
        }
      }
    }
  }

  /** Deleting from an attribute: set difference, still ascending. */
  lemma DeleteIsDifference(s: seq<U32>, t: seq<U32>)
    requires Ascending(s)
    ensures Ascending(DeleteAll(s, t)) && forall x: U32 :: x in DeleteAll(s, t) <==> x in s && x !in t
  {
    DeleteIsMinus(s, t);
    MinusMembers(s, t);
    MinusOrder(s, t);
  }

  // ---------- The attribute ----------

  // ---------- Deleting an attribute from itself ----------

  /** The values at odd positions. */
  function EveryOther(s: seq<U32>): (t: seq<U32>)
    ensures |t| == |s| / 2
  {
    if |s| < 2 then [] else [s[1]] + EveryOther(s[2..])
  }

  lemma {:induction false} EveryOtherAppend(s: seq<U32>, t: seq<U32>, i: nat)
    requires |s| == i + i
    ensures EveryOther(s + t) == EveryOther(s) + EveryOther(t)
  {
    if s == [] {
      assert s + t == t;
    } else {
      assert (s + t)[2..] == s[2..] + t;
      EveryOtherAppend(s[2..], t, i - 1);
    }
  }

  /** After `i` rounds, the values at even positions up to there are gone. */
  ghost predicate Thinned(s: seq<U32>, i: nat, v: seq<U32>)
  {
    var k := if 2 * i <= |s| then 2 * i else |s|;
    2 * i <= |s| + 1 && v == EveryOther(s[..k]) + s[k..] && Distinct(v)
  }

  lemma {:induction false} WithoutShorter(s: seq<U32>, x: U32)
    ensures |Without(s, x)| <= |s|
  {
    if s != [] { WithoutShorter(s[1..], x); }
  }

  lemma EveryOtherTwo(s: seq<U32>, i: nat)
    requires 2 * i + 2 <= |s|
    ensures EveryOther(s[..2 * i + 2]) == EveryOther(s[..2 * i]) + [s[2 * i + 1]]
  {
    var k := 2 * i;
    assert s[..k + 2] == s[..k] + [s[k], s[k + 1]];
    EveryOtherAppend(s[..k], [s[k], s[k + 1]], i);
  }

  lemma EveryOtherOne(s: seq<U32>, i: nat)
    requires 2 * i + 1 == |s|
    ensures EveryOther(s) == EveryOther(s[..2 * i])
  {
    var k := 2 * i;
    var a, b := s[..k], [s[k]];
    assert s == a + b;
    EveryOtherAppend(a, b, i);
    assert EveryOther(b) == [];
  }

  lemma TakenOut(done: seq<U32>, rest: seq<U32>, v: seq<U32>, i: nat)
    requires v == done + rest && |done| == i < |v| && Distinct(v)
    ensures Without(v, v[i]) == done + rest[1..] && Distinct(done + rest[1..])
  {
    WithoutAt(v, i);
    WithoutMembers(v, v[i]);
    assert v[..i] + v[i + 1..] == done + rest[1..];
  }

  /** Where the next round leaves the values. */
  lemma NextThinned(s: seq<U32>, i: nat, k: nat)
    requires 2 * i < |s| && k == if 2 * i + 2 <= |s| then 2 * i + 2 else |s|
    ensures EveryOther(s[..2 * i]) + s[2 * i..][1..] == EveryOther(s[..k]) + s[k..]
  {
    if 2 * i + 2 <= |s| {
      EveryOtherTwo(s, i);
      assert s[2 * i..][1..] == [s[2 * i + 1]] + s[2 * i + 2..];
    } else {
      EveryOtherOne(s, i);
      assert s[..k] == s && s[k..] == [] && s[2 * i..][1..] == [];
    }
  }

  lemma ThinnedMore(s: seq<U32>, i: nat, v: seq<U32>)
    requires Thinned(s, i, v) && i < |v|
    ensures Thinned(s, i + 1, Without(v, v[i]))
  {
    TakenOut(EveryOther(s[..2 * i]), s[2 * i..], v, i);
    NextThinned(s, i, if 2 * i + 2 <= |s| then 2 * i + 2 else |s|);
  }

  lemma ThinnedOut(s: seq<U32>, i: nat, v: seq<U32>)
    requires Thinned(s, i, v) && i >= |v|
    ensures v == EveryOther(s)
  {
    assert s[..|s|] == s;
  }

  class Community {
    var val: seq<U32>

    constructor ()
      ensures val == []
    {
      val := [];
    }

    /** `community_add_val`. */
    method AddVal(v: U32)
      modifies this
      ensures val == old(val) + [v]
    {
      val := val + [v];
    }

    /** `community_include`. */
    method Include(v: U32) returns (found: bool)
      ensures found <==> v in val
    {
      var i := 0;
      while i < |val|
        invariant 0 <= i <= |val| && v !in val[..i]
      {
        if v == val[i] { return true; }
        i := i + 1;
      }
      return false;
    }

    /** `community_uniq_sort`. */
    method UniqSorted() returns (new': Community)
      ensures fresh(new') && new'.val == UniqSort(val)
    {
      new' := new Community();
      var i := 0;
      while i < |val|
        invariant 0 <= i <= |val| && fresh(new') && new'.val == Firsts(val[..i]) && val == old(val)
      {
        assert val[..i + 1][..i] == val[..i];
        var found := new'.Include(val[i]);
        if !found { new'.AddVal(val[i]); }
        i := i + 1;
      }
      assert val[..i] == val;
      new'.val := Sorted(new'.val);
    }

    /** `community_del_val`: the values behind the one deleted move up. */
    method Del(v: U32)
      modifies this
      ensures val == Without(old(val), v)
    {
      var i := 0;
      assert val[0..] == val;
      while i < |val|
        invariant 0 <= i <= |val| && val == old(val)
        invariant Without(val, v) == val[..i] + Without(val[i..], v)
      {
        assert val[i..][1..] == val[i + 1..];
        if val[i] == v {
          val := val[..i] + val[i + 1..];
          return;
        }
        assert val[..i + 1] == val[..i] + [val[i]];
        i := i + 1;
      }
    }

    /** `community_delete`; an attribute deleted from itself loses every other value only. */
    method Delete(other: Community)
      modifies this
      ensures other != this ==> val == DeleteAll(old(val), other.val)
      ensures other == this && Distinct(old(val)) ==> val == EveryOther(old(val))
    {
      var i := 0;
      assert other.val[0..] == other.val;
      assert EveryOther(val[..0]) + val[0..] == val;
      while i < |other.val|
        invariant 0 <= i
        invariant other != this ==> i <= |other.val| && other.val == old(other.val)
        invariant other != this ==> DeleteAll(old(val), other.val) == DeleteAll(val, other.val[i..])
        invariant other == this && Distinct(old(val)) ==> Thinned(old(val), i, val)
        decreases |other.val| - i
      {
        assert other.val[i..][1..] == other.val[i + 1..];
        if other == this && Distinct(old(val)) { ThinnedMore(old(val), i, val); }
        WithoutShorter(val, other.val[i]);
        Del(other.val[i]);
        i := i + 1;
      }
      if other == this && Distinct(old(val)) { ThinnedOut(old(val), i, val); }
    }
  }

  /** `community_match`; on attributes, which are strictly ascending, it decides inclusion. */
  method Match(com1: Community?, com2: Community?) returns (r: bool)
    ensures com1 == null || com2 == null ==> (r <==> com1 == null && com2 == null)
    ensures com1 != null && com2 != null ==> (r <==> Subsequence(com2.val, com1.val))
    ensures com1 != null && com2 != null && Ascending(com1.val) && Ascending(com2.val)
      ==> (r <==> forall x: U32 | x in com2.val :: x in com1.val)
  {
    if com1 == null && com2 == null { return true; }
    if com1 == null || com2 == null { return false; }
    var s, t := com1.val, com2.val;
    GreedyFindsSubsequence(s, t);
    if Ascending(s) && Ascending(t) { GreedyDecidesInclusion(s, t); }
    if |s| < |t| {
      if Subsequence(t, s) { SubsequenceMembers(t, s); }
      return false;
    }
    var i, j := 0, 0;
    assert s[0..] == s && t[0..] == t;
    while i < |s| && j < |t|
      invariant 0 <= i <= |s| && 0 <= j <= |t|
      invariant Greedy(s, t) == Greedy(s[i..], t[j..])
    {
      assert s[i..][1..] == s[i + 1..] && t[j..][1..] == t[j + 1..];
      if s[i] == t[j] { j := j + 1; }
      i := i + 1;
    }
    r := j == |t|;
  }
}

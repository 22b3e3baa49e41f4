/** The three sorts the drink tracker performs: the default `sort()` on
    strings (autocomplete lists, month keys), `sort((a, b) => b - a)` on
    years, and the stable `sort((a, b) => b.count - a.count)` on place
    counts. Each is an insertion sort; a stable sort has only one possible
    result, so this is the result `Array.prototype.sort` produces. */
module Sorting {

  import opened Text
  import opened Seqs

  // ------------------------------------------------------------ strings

  /** `a` sorts no later than `b`. */
  predicate StrLe(a: string, b: string)
  {
    !StrLess(b, a)
  }

  predicate StrSorted(s: seq<string>)
  {
    forall i, j :: 0 <= i < j < |s| ==> StrLe(s[i], s[j])
  }

  predicate StrictlyAscending(s: seq<string>)
  {
    forall i, j :: 0 <= i < j < |s| ==> StrLess(s[i], s[j])
  }

  lemma StrLeTransitive(a: string, b: string, c: string)
    requires StrLe(a, b) && StrLe(b, c)
    ensures StrLe(a, c)
  {
    StrLessTotal(a, b);
    StrLessTotal(b, c);
    StrLessTotal(a, c);
    if StrLess(a, b) && StrLess(b, c) {
      StrLessTransitive(a, b, c);
    }
  }

  lemma PrependSorted(x: string, s: seq<string>)
    requires StrSorted(s)
    requires s == [] || StrLe(x, s[0])
    ensures StrSorted([x] + s)
  {
    forall j | 0 <= j < |s|
      ensures StrLe(x, s[j])
    {
      if j > 0 {
        StrLeTransitive(x, s[0], s[j]);
      }
    }
  }

  function InsertString(x: string, s: seq<string>): (r: seq<string>)
    requires StrSorted(s)
    ensures StrSorted(r)
    ensures multiset(r) == multiset(s) + multiset{x}
  {
    if s == [] || StrLe(x, s[0]) then
      PrependSorted(x, s);
      [x] + s
    else
      var t := InsertString(x, s[1..]);
      assert s == [s[0]] + s[1..];
      StrLessTotal(x, s[0]);
      forall y | y in t
        ensures StrLe(s[0], y)
      {
        assert y in multiset(t);
        if y != x {
          assert y in multiset(s[1..]);
          var k :| 0 <= k < |s[1..]| && s[1..][k] == y;
          assert s[k + 1] == y;
        }
      }
      [s[0]] + t
  }

  /** `values.sort()` on strings: the same strings, in ascending order. */
  function SortStrings(s: seq<string>): (r: seq<string>)
    ensures StrSorted(r)
    ensures multiset(r) == multiset(s)
  {
    if s == [] then []
    else
      assert s == [s[0]] + s[1..];
      InsertString(s[0], SortStrings(s[1..]))
  }

  /** Sorting strings without repeats gives them in strictly ascending order,
      with exactly the same members. */
  lemma SortStringsDistinct(s: seq<string>)
    requires Distinct(s)
    ensures StrictlyAscending(SortStrings(s))
    ensures forall x :: x in SortStrings(s) <==> x in s
  {
    var r := SortStrings(s);
    DistinctPermutation(s, r);
    forall i, j | 0 <= i < j < |r|
      ensures StrLess(r[i], r[j])
    {
      StrLessTotal(r[i], r[j]);
    }
    forall x
      ensures x in r <==> x in s
    {
      assert x in r <==> x in multiset(r);
      assert x in s <==> x in multiset(s);
    }
  }

  // --------------------------------------------------------------- years

  predicate NonIncreasing(s: seq<int>)
  {
    forall i, j :: 0 <= i < j < |s| ==> s[i] >= s[j]
  }

  predicate StrictlyDescending(s: seq<int>)
  {
    forall i, j :: 0 <= i < j < |s| ==> s[i] > s[j]
  }

  /** Every element of `t`, which holds the tail of `s` and `x`, is at most
      `s[0]` when `x` is. */
  lemma HeadAtLeastAll(s: seq<int>, x: int, t: seq<int>)
    requires NonIncreasing(s) && s != [] && x <= s[0]
    requires multiset(t) == multiset(s[1..]) + multiset{x}
    ensures forall j :: 0 <= j < |t| ==> t[j] <= s[0]
  {
    forall j | 0 <= j < |t|
      ensures t[j] <= s[0]
    {
      assert t[j] in multiset(t);
      if t[j] != x {
        assert t[j] in multiset(s[1..]);
        var k :| 0 <= k < |s[1..]| && s[1..][k] == t[j];
        assert s[k + 1] == t[j];
      }
    }
  }

  lemma PrependDescending(h: int, t: seq<int>)
    requires NonIncreasing(t)
    requires forall j :: 0 <= j < |t| ==> t[j] <= h
    ensures NonIncreasing([h] + t)
  {
  }

  function InsertDescending(x: int, s: seq<int>): (r: seq<int>)
    requires NonIncreasing(s)
    ensures NonIncreasing(r)
    ensures multiset(r) == multiset(s) + multiset{x}
  {
    if s == [] || s[0] <= x then
      PrependDescending(x, s);
      [x] + s
    else
      var t := InsertDescending(x, s[1..]);
      HeadAtLeastAll(s, x, t);
      PrependDescending(s[0], t);
      assert s == [s[0]] + s[1..];
      [s[0]] + t
  }

  /** `years.sort((a, b) => b - a)`: the same numbers, largest first. */
  function SortDescending(s: seq<int>): (r: seq<int>)
    ensures NonIncreasing(r)
    ensures multiset(r) == multiset(s)
  {
    if s == [] then []
    else
      assert s == [s[0]] + s[1..];
      InsertDescending(s[0], SortDescending(s[1..]))
  }

  /** Sorting numbers without repeats, largest first, gives them in strictly
      descending order, with exactly the same members. */
  lemma SortDescendingDistinct(s: seq<int>)
    requires Distinct(s)
    ensures StrictlyDescending(SortDescending(s))
    ensures forall x :: x in SortDescending(s) <==> x in s
  {
    var r := SortDescending(s);
    DistinctPermutation(s, r);
    forall x
      ensures x in r <==> x in s
    {
      assert x in r <==> x in multiset(r);
      assert x in s <==> x in multiset(s);
    }
  }

  // --------------------------------------------------------- place counts

  predicate CountsNonIncreasing<K>(s: seq<(K, nat)>)
  {
    forall i, j :: 0 <= i < j < |s| ==> s[i].1 >= s[j].1
  }

  /** The entries of `s` whose count is `c`, in their order in `s`. */
  function WithCount<K>(s: seq<(K, nat)>, c: nat): seq<(K, nat)>
  {
    if s == [] then [] else (if s[0].1 == c then [s[0]] else []) + WithCount(s[1..], c)
  }

  lemma HeadCountAtLeastAll<K>(s: seq<(K, nat)>, e: (K, nat), t: seq<(K, nat)>)
    requires CountsNonIncreasing(s) && s != [] && e.1 <= s[0].1
    requires multiset(t) == multiset(s[1..]) + multiset{e}
    ensures forall j :: 0 <= j < |t| ==> t[j].1 <= s[0].1
  {
    forall j | 0 <= j < |t|
      ensures t[j].1 <= s[0].1
    {
      assert t[j] in multiset(t);
      if t[j] != e {
        assert t[j] in multiset(s[1..]);
        var k :| 0 <= k < |s[1..]| && s[1..][k] == t[j];
        assert s[k + 1] == t[j];
      }
    }
  }

  lemma PrependByCount<K>(h: (K, nat), t: seq<(K, nat)>)
    requires CountsNonIncreasing(t)
    requires forall j :: 0 <= j < |t| ==> t[j].1 <= h.1
    ensures CountsNonIncreasing([h] + t)
    ensures forall c :: WithCount([h] + t, c) == (if h.1 == c then [h] else []) + WithCount(t, c)
  {
    forall c
      ensures WithCount([h] + t, c) == (if h.1 == c then [h] else []) + WithCount(t, c)
    {
      assert ([h] + t)[1..] == t;
    }
  }

  function InsertByCount<K(==)>(e: (K, nat), s: seq<(K, nat)>): (r: seq<(K, nat)>)
    requires CountsNonIncreasing(s)
    ensures CountsNonIncreasing(r)
    ensures multiset(r) == multiset(s) + multiset{e}
    ensures forall c :: WithCount(r, c) == if e.1 == c then [e] + WithCount(s, c) else WithCount(s, c)
  {
    if s == [] || s[0].1 <= e.1 then
      PrependByCount(e, s);
      [e] + s
    else
      var t := InsertByCount(e, s[1..]);
      HeadCountAtLeastAll(s, e, t);
      PrependByCount(s[0], t);
      PrependByCount(s[0], s[1..]);
      assert s == [s[0]] + s[1..];
      [s[0]] + t
  }

  /** `entries.sort((a, b) => b.count - a.count)`, which is stable: the same
      entries, largest count first, and entries with equal counts in their
      original order. */
  function SortByCountDescending<K(==)>(s: seq<(K, nat)>): (r: seq<(K, nat)>)
    ensures CountsNonIncreasing(r)
    ensures multiset(r) == multiset(s)
    ensures forall c :: WithCount(r, c) == WithCount(s, c)
  {
    if s == [] then []
    else
      assert s == [s[0]] + s[1..];
      InsertByCount(s[0], SortByCountDescending(s[1..]))
  }
}

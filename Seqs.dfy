/** Sequence operations behind the JavaScript array and `Set` calls of the
    drink tracker: `filter`, `reverse`, and the first-occurrence order in
    which a `Set` (or a `Map`'s keys) iterates. */
module Seqs {

  /** `r` is `s` with some elements deleted and the rest kept in order. */
  predicate IsSubsequence<T(==)>(r: seq<T>, s: seq<T>)
  {
    if r == [] then true
    else if s == [] then false
    else if r[|r| - 1] == s[|s| - 1] then IsSubsequence(r[..|r| - 1], s[..|s| - 1])
    else IsSubsequence(r, s[..|s| - 1])
  }

  lemma {:induction false} SubsequenceReflexive<T>(s: seq<T>)
    ensures IsSubsequence(s, s)
  {
    if s != [] {
      SubsequenceReflexive(s[..|s| - 1]);
    }
  }

  predicate Distinct<T(==)>(s: seq<T>)
  {
    forall i, j :: 0 <= i < j < |s| ==> s[i] != s[j]
  }

  /** `s.filter(p)`: exactly the elements satisfying `p`, each as often as
      in `s`, in their original order. */
  function Filter<T(==,!new)>(s: seq<T>, p: T -> bool): (r: seq<T>)
    ensures |r| <= |s|
    ensures forall x :: x in r <==> x in s && p(x)
    ensures forall x :: multiset(r)[x] == if p(x) then multiset(s)[x] else 0
    ensures IsSubsequence(r, s)
    ensures (forall i :: 0 <= i < |s| ==> p(s[i])) ==> r == s
  {
    if s == [] then []
    else
      var init, last := s[..|s| - 1], s[|s| - 1];
      var rest := Filter(init, p);
      assert s == init + [last];
      assert multiset(s) == multiset(init) + multiset{last};
      if p(last) then rest + [last] else rest
  }

  /** The distinct elements of `s` in order of first occurrence: the
      iteration order of `new Set(s)`. */
  function Dedup<T(==,!new)>(s: seq<T>): (r: seq<T>)
    ensures Distinct(r)
    ensures forall x :: x in r <==> x in s
  {
    if s == [] then []
    else
      var d := Dedup(s[..|s| - 1]);
      var last := s[|s| - 1];
      assert s == s[..|s| - 1] + [last];
      if last in d then d else d + [last]
  }

  /** The position of the first occurrence of `x` in `s`. */
  function FirstIndex<T(==)>(s: seq<T>, x: T): (i: nat)
    requires x in s
    ensures i < |s| && s[i] == x && x !in s[..i]
  {
    if s[0] == x then 0
    else
      var i := 1 + FirstIndex(s[1..], x);
      assert s[..i] == [s[0]] + s[1..][..i - 1];
      i
  }

  /** An occurrence with no earlier one is the first occurrence. */
  lemma FirstIndexUnique<T>(s: seq<T>, x: T, k: int)
    requires 0 <= k < |s| && s[k] == x && x !in s[..k]
    ensures FirstIndex(s, x) == k
  {
  }

  /** Appending an element does not move the first occurrence of anything
      already present, and a new element first occurs at the end. */
  lemma FirstIndexSnoc<T>(s: seq<T>, y: T, x: T)
    requires x in s + [y]
    ensures x in s ==> FirstIndex(s + [y], x) == FirstIndex(s, x)
    ensures x !in s ==> FirstIndex(s + [y], x) == |s|
  {
    var r := s + [y];
    if x in s {
      var k := FirstIndex(s, x);
      assert r[..k] == s[..k];
      FirstIndexUnique(r, x, k);
    } else {
      assert r[..|s|] == s;
      FirstIndexUnique(r, x, |s|);
    }
  }

  /** `Dedup` lists the elements in the order of their first occurrences. */
  lemma {:induction false} DedupFirstOccurrence<T(!new)>(s: seq<T>)
    ensures forall i, j :: 0 <= i < j < |Dedup(s)| ==> FirstIndex(s, Dedup(s)[i]) < FirstIndex(s, Dedup(s)[j])
  {
    if s != [] {
      var init, last := s[..|s| - 1], s[|s| - 1];
      assert s == init + [last];
      DedupFirstOccurrence(init);
      var d := Dedup(init);
      forall i, j | 0 <= i < j < |Dedup(s)|
        ensures FirstIndex(s, Dedup(s)[i]) < FirstIndex(s, Dedup(s)[j])
      {
        assert d[i] in init;
        FirstIndexSnoc(init, last, d[i]);
        if j < |d| {
          assert d[j] in init;
          FirstIndexSnoc(init, last, d[j]);
        } else {
          assert Dedup(s)[j] == last && last !in init;
          FirstIndexSnoc(init, last, last);
        }
      }
    }
  }

  /** `set.add(x)` on the iteration order of a `Set`. */
  lemma DedupSnoc<T(!new)>(s: seq<T>, x: T)
    ensures Dedup(s + [x]) == if x in Dedup(s) then Dedup(s) else Dedup(s) + [x]
  {
    assert (s + [x])[..|s|] == s;
  }

  /** `s.reverse()`. */
  function Reverse<T>(s: seq<T>): (r: seq<T>)
    ensures |r| == |s|
    ensures forall i :: 0 <= i < |s| ==> r[i] == s[|s| - 1 - i]
  {
    if s == [] then [] else Reverse(s[1..]) + [s[0]]
  }

  /** A sequence has no repeated element exactly when no element occurs
      more than once in its multiset. */
  lemma {:induction false} DistinctIffSingletons<T(!new)>(s: seq<T>)
    ensures Distinct(s) <==> forall x :: multiset(s)[x] <= 1
  {
    if s != [] {
      var init, last := s[..|s| - 1], s[|s| - 1];
      assert s == init + [last];
      DistinctIffSingletons(init);
      if Distinct(s) {
        assert Distinct(init);
        assert last !in init;
      } else {
        var i, j :| 0 <= i < j < |s| && s[i] == s[j];
        if j < |s| - 1 {
          assert init[i] == init[j];
          assert !Distinct(init);
          var x :| multiset(init)[x] > 1;
          assert multiset(s)[x] == multiset(init)[x] + multiset([last])[x];
        } else {
          assert init[i] == last;
          assert multiset(init)[last] >= 1;
          assert multiset(s)[last] == multiset(init)[last] + 1;
        }
      }
    }
  }

  /** Reordering a sequence without repeats gives one without repeats. */
  lemma DistinctPermutation<T(!new)>(s: seq<T>, r: seq<T>)
    requires multiset(r) == multiset(s)
    requires Distinct(s)
    ensures Distinct(r)
  {
    DistinctIffSingletons(s);
    DistinctIffSingletons(r);
  }
}

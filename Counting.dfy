/** Insertion-ordered association lists: the JavaScript plain objects and
    `Map`s the tracker fills with `counts[key] = (counts[key] || 0) + 1`
    and `map.set(key, value)`. A new key goes to the end; a key already
    present keeps its place, which is what `Object.keys`/`Object.entries`
    and `Map` iteration then follow. */
module Counting {

  import opened Seqs

  function Keys<K, V>(m: seq<(K, V)>): (ks: seq<K>)
    ensures |ks| == |m|
    ensures forall i :: 0 <= i < |m| ==> ks[i] == m[i].0
  {
    seq(|m|, i requires 0 <= i < |m| => m[i].0)
  }

  /** `counts[k] || 0`. */
  function CountOf<K(==)>(m: seq<(K, nat)>, k: K): nat
  {
    if m == [] then 0 else if m[0].0 == k then m[0].1 else CountOf(m[1..], k)
  }

  /** The sum of all counts. */
  function Total<K>(m: seq<(K, nat)>): nat
  {
    if m == [] then 0 else m[0].1 + Total(m[1..])
  }

  predicate AllPositive<K>(m: seq<(K, nat)>)
  {
    forall i :: 0 <= i < |m| ==> m[i].1 >= 1
  }

  /** `counts[k] = (counts[k] || 0) + 1`: the count of `k` goes up by one,
      every other count stays, the total grows by one, and `k` is appended
      to the keys if it was not among them. */
  function Increment<K(==,!new)>(m: seq<(K, nat)>, k: K): (r: seq<(K, nat)>)
    ensures Keys(r) == if k in Keys(m) then Keys(m) else Keys(m) + [k]
    ensures forall j :: CountOf(r, j) == CountOf(m, j) + (if j == k then 1 else 0)
    ensures Total(r) == Total(m) + 1
    ensures AllPositive(m) ==> AllPositive(r)
  {
    if m == [] then [(k, 1)]
    else
      assert m == [m[0]] + m[1..];
      ConsFacts(m[0], m[1..]);
      if m[0].0 == k then
        ConsFacts((k, m[0].1 + 1), m[1..]);
        [(k, m[0].1 + 1)] + m[1..]
      else
        var rest := Increment(m[1..], k);
        ConsFacts(m[0], rest);
        [m[0]] + rest
  }

  /** How the keys, counts and total of an entry followed by a list are
      those of the list. */
  lemma ConsFacts<K>(e: (K, nat), t: seq<(K, nat)>)
    ensures Keys([e] + t) == [e.0] + Keys(t)
    ensures forall j :: CountOf([e] + t, j) == if e.0 == j then e.1 else CountOf(t, j)
    ensures Total([e] + t) == e.1 + Total(t)
    ensures AllPositive([e] + t) <==> e.1 >= 1 && AllPositive(t)
  {
    var r := [e] + t;
    assert r[1..] == t;
    KeysCons(e, t);
    PositiveCons(e, t);
  }

  lemma KeysCons<K>(e: (K, nat), t: seq<(K, nat)>)
    ensures Keys([e] + t) == [e.0] + Keys(t)
  {
    var r := [e] + t;
    assert forall i :: 1 <= i < |r| ==> r[i] == t[i - 1];
  }

  lemma PositiveCons<K>(e: (K, nat), t: seq<(K, nat)>)
    ensures AllPositive([e] + t) <==> e.1 >= 1 && AllPositive(t)
  {
    var r := [e] + t;
    if AllPositive(r) {
      assert r[0] == e;
      forall i | 0 <= i < |t|
        ensures t[i].1 >= 1
      {
        assert t[i] == r[i + 1];
      }
    }
    if e.1 >= 1 && AllPositive(t) {
      forall i | 0 <= i < |r|
        ensures r[i].1 >= 1
      {
        if i > 0 {
          assert r[i] == t[i - 1];
        }
      }
    }
  }

  /** The counts a `forEach` over `ks` leaves in an initially empty object
      when each step increments the count of its key. */
  function Tally<K(==,!new)>(ks: seq<K>): seq<(K, nat)>
  {
    if ks == [] then [] else Increment(Tally(ks[..|ks| - 1]), ks[|ks| - 1])
  }

  /** Tallying one more key increments its count in the tally so far. */
  lemma TallySnoc<K(!new)>(ks: seq<K>, k: K)
    ensures Tally(ks + [k]) == Increment(Tally(ks), k)
  {
    assert (ks + [k])[..|ks|] == ks;
  }

  /** The tally's keys are the distinct keys in order of first occurrence. */
  lemma {:induction false} TallyKeys<K(!new)>(ks: seq<K>)
    ensures Keys(Tally(ks)) == Dedup(ks)
    ensures Distinct(Keys(Tally(ks)))
  {
    if ks != [] {
      TallyKeys(ks[..|ks| - 1]);
    }
  }

  /** Each key's count is the number of times it occurs, every count is
      positive, and the counts add up to the number of keys tallied. */
  lemma TallyCounts<K(!new)>(ks: seq<K>)
    ensures forall k :: CountOf(Tally(ks), k) == multiset(ks)[k]
    ensures Total(Tally(ks)) == |ks|
    ensures AllPositive(Tally(ks))
  {
    TallyCountOf(ks);
    TallyTotal(ks);
  }

  lemma {:induction false} TallyCountOf<K(!new)>(ks: seq<K>)
    ensures forall k :: CountOf(Tally(ks), k) == multiset(ks)[k]
  {
    if ks != [] {
      var init, last := ks[..|ks| - 1], ks[|ks| - 1];
      TallyCountOf(init);
      assert ks == init + [last];
      assert forall k :: multiset(ks)[k] == multiset(init)[k] + (if k == last then 1 else 0);
    }
  }

  lemma {:induction false} TallyTotal<K(!new)>(ks: seq<K>)
    ensures Total(Tally(ks)) == |ks|
    ensures AllPositive(Tally(ks))
  {
    if ks != [] {
      TallyTotal(ks[..|ks| - 1]);
    }
  }

  /** Tallying a key over and over gives that one key with the number of
      times it was tallied. */
  lemma {:induction false} TallyConstant<K(!new)>(ks: seq<K>, k: K)
    requires ks != []
    requires forall i :: 0 <= i < |ks| ==> ks[i] == k
    ensures Tally(ks) == [(k, |ks|)]
  {
    if |ks| > 1 {
      TallyConstant(ks[..|ks| - 1], k);
    }
  }

  /** `map.set(k, v)`: the value under `k` becomes `v`, a new `k` is
      appended, and every other entry stays where and what it was. */
  function Put<K(==), V>(m: seq<(K, V)>, k: K, v: V): (r: seq<(K, V)>)
    ensures Keys(r) == if k in Keys(m) then Keys(m) else Keys(m) + [k]
    ensures forall i :: 0 <= i < |m| ==> r[i] == if m[i].0 == k then (k, v) else m[i]
    ensures k !in Keys(m) ==> r[|m|] == (k, v)
  {
    var updated := seq(|m|, i requires 0 <= i < |m| => if m[i].0 == k then (k, v) else m[i]);
    if k in Keys(m) then updated else updated + [(k, v)]
  }

  /** Entry `i` holds the largest count in `m`, and no earlier entry reaches
      it: the entry a strict `>` scan in iteration order settles on. */
  predicate IsFirstMaximum<K>(m: seq<(K, nat)>, i: int)
  {
    && 0 <= i < |m|
    && (forall j :: 0 <= j < |m| ==> m[j].1 <= m[i].1)
    && (forall j :: 0 <= j < i ==> m[j].1 < m[i].1)
  }
}

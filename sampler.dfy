/**
  The sampler: `shuffle(data).slice(0, 25)`. The shuffle attaches a sort key
  to every element, sorts the pairs by key and strips the keys again. The
  keys come from the random number generator; here the caller supplies them,
  one per element, so the shuffle is a function of its inputs.
 */
module Sampler {
  import opened QuizData

  /** The size of a session: at most this many questions are kept. */
  const MAX_QUESTIONS: nat := 25

  /** An element together with its sort key. */
  type Keyed<T> = (T, real)

  function Min(a: nat, b: nat): nat {
    if a <= b then a else b
  }

  /** The pairs are in non-decreasing order of their keys. */
  ghost predicate SortedByKey<T>(s: seq<Keyed<T>>) {
    forall i, j :: 0 <= i < j < |s| ==> s[i].1 <= s[j].1
  }

  /** No element occurs twice. */
  ghost predicate Distinct<T>(s: seq<T>) {
    forall i, j :: 0 <= i < j < |s| ==> s[i] != s[j]
  }

  /** `array.map(value => ({ value, sort }))`, with the keys given. */
  function Decorate<T>(xs: seq<T>, keys: seq<real>): (r: seq<Keyed<T>>)
    requires |keys| == |xs|
    ensures |r| == |xs|
    ensures forall i :: 0 <= i < |r| ==> r[i].0 == xs[i] && r[i].1 == keys[i]
  {
    seq(|xs|, i requires 0 <= i < |xs| => (xs[i], keys[i]))
  }

  /** `.map(({ value }) => value)`. */
  function Strip<T>(s: seq<Keyed<T>>): (r: seq<T>)
    ensures |r| == |s|
    ensures forall i :: 0 <= i < |r| ==> r[i] == s[i].0
  {
    seq(|s|, i requires 0 <= i < |s| => s[i].0)
  }

  /** Puts `p` into the sorted `s`, after every pair whose key is not larger. */
  function Insert<T>(p: Keyed<T>, s: seq<Keyed<T>>): (r: seq<Keyed<T>>)
    requires SortedByKey(s)
    ensures SortedByKey(r)
    ensures forall x :: x in r ==> x == p || x in s
    ensures multiset(r) == multiset(s) + multiset{p}
  {
    if s == [] then [p]
    else if p.1 < s[0].1 then
      ConsSorted(p, s);
      [p] + s
    else
      SortedTail(s);
      var rest := Insert(p, s[1..]);
      LowerBoundOfInsert(p, s, rest);
      ConsSorted(s[0], rest);
      assert s == [s[0]] + s[1..];
      [s[0]] + rest
  }

  /** The tail of a sorted list is sorted, and no key in it is below the head's. */
  lemma SortedTail<T>(s: seq<Keyed<T>>)
    requires SortedByKey(s) && s != []
    ensures SortedByKey(s[1..])
    ensures forall k :: 0 <= k < |s[1..]| ==> s[0].1 <= s[1..][k].1
  {
  }

  /** Inserting into the tail keeps every key at least the head's key. */
  lemma LowerBoundOfInsert<T>(p: Keyed<T>, s: seq<Keyed<T>>, rest: seq<Keyed<T>>)
    requires SortedByKey(s) && s != [] && s[0].1 <= p.1
    requires forall x :: x in rest ==> x == p || x in s[1..]
    ensures forall k :: 0 <= k < |rest| ==> s[0].1 <= rest[k].1
  {
    forall k | 0 <= k < |rest|
      ensures s[0].1 <= rest[k].1
    {
      assert rest[k] in rest;
      if rest[k] != p {
        var m :| 0 <= m < |s[1..]| && s[1..][m] == rest[k];
        assert s[1..][m] == s[m + 1];
      }
    }
  }

  /** Putting a pair whose key is not above any key of a sorted list in front keeps it sorted. */
  lemma ConsSorted<T>(x: Keyed<T>, t: seq<Keyed<T>>)
    requires SortedByKey(t)
    requires forall k :: 0 <= k < |t| ==> x.1 <= t[k].1
    ensures SortedByKey([x] + t)
  {
    var r := [x] + t;
    forall i, j | 0 <= i < j < |r|
      ensures r[i].1 <= r[j].1
    {
      assert r[j] == t[j - 1];
      if i > 0 {
        assert r[i] == t[i - 1];
      }
    }
  }

  /** `.sort((a, b) => a.sort - b.sort)`: a stable sort on the keys. */
  function SortByKey<T>(s: seq<Keyed<T>>): (r: seq<Keyed<T>>)
    ensures SortedByKey(r)
    ensures multiset(r) == multiset(s)
    ensures |r| == |s|
  {
    if s == [] then []
    else
      assert s == s[..|s| - 1] + [s[|s| - 1]];
      var r := Insert(s[|s| - 1], SortByKey(s[..|s| - 1]));
      assert |r| == |multiset(r)|;
      r
  }

  /** `shuffle(array)` for the given sort keys: a permutation of the input,
      of the same length and with the same multiset of elements. */
  function Shuffle<T>(xs: seq<T>, keys: seq<real>): (r: seq<T>)
    requires |keys| == |xs|
    ensures |r| == |xs|
    ensures multiset(r) == multiset(xs)
  {
    var d := Decorate(xs, keys);
    StripSort(d);
    assert Strip(d) == xs;
    Strip(SortByKey(d))
  }

  /** `shuffle(data).slice(0, 25)`: min(L, 25) elements drawn from the input,
      none more often than it occurs there. */
  function Sample<T>(xs: seq<T>, keys: seq<real>): (r: seq<T>)
    requires |keys| == |xs|
    ensures |r| == Min(|xs|, MAX_QUESTIONS)
    ensures multiset(r) <= multiset(xs)
    ensures forall x :: x in r ==> x in xs
    ensures r == [] <==> xs == []
  {
    var shuffled := Shuffle(xs, keys);
    var r := shuffled[..Min(|shuffled|, MAX_QUESTIONS)];
    PrefixSubMultiset(shuffled, |r|);
    assert forall x :: x in r ==> x in multiset(r);
    r
  }

  // ---------------------------------------------------------------------------
  // Shuffle

  lemma StripCons<T>(p: Keyed<T>, s: seq<Keyed<T>>)
    ensures Strip([p] + s) == [p.0] + Strip(s)
  {
    assert Strip([p] + s) == [p.0] + Strip(s) by {
      forall i | 0 <= i < |s| + 1
        ensures Strip([p] + s)[i] == ([p.0] + Strip(s))[i]
      {
        if i > 0 {
          assert ([p] + s)[i] == s[i - 1];
        }
      }
    }
  }

  lemma StripSnoc<T>(s: seq<Keyed<T>>, p: Keyed<T>)
    ensures Strip(s + [p]) == Strip(s) + [p.0]
  {
    assert Strip(s + [p]) == Strip(s) + [p.0] by {
      forall i | 0 <= i < |s| + 1
        ensures Strip(s + [p])[i] == (Strip(s) + [p.0])[i]
      {
        if i < |s| {
          assert (s + [p])[i] == s[i];
        }
      }
    }
  }

  /** Inserting a pair adds exactly its element to the stripped values. */
  lemma {:induction false} StripInsert<T>(p: Keyed<T>, s: seq<Keyed<T>>)
    requires SortedByKey(s)
    ensures multiset(Strip(Insert(p, s))) == multiset(Strip(s)) + multiset{p.0}
  {
    if s == [] {
    } else if p.1 < s[0].1 {
      StripCons(p, s);
    } else {
      assert s == [s[0]] + s[1..];
      StripInsert(p, s[1..]);
      StripCons(s[0], Insert(p, s[1..]));
      StripCons(s[0], s[1..]);
    }
  }

  /** Sorting the pairs permutes the stripped values. */
  lemma {:induction false} StripSort<T>(s: seq<Keyed<T>>)
    ensures multiset(Strip(SortByKey(s))) == multiset(Strip(s))
  {
    if s != [] {
      var init, last := s[..|s| - 1], s[|s| - 1];
      assert s == init + [last];
      StripSort(init);
      StripInsert(last, SortByKey(init));
      StripSnoc(init, last);
    }
  }

  lemma {:induction false} InsertLargest<T>(p: Keyed<T>, s: seq<Keyed<T>>)
    requires SortedByKey(s)
    requires forall i :: 0 <= i < |s| ==> s[i].1 <= p.1
    ensures Insert(p, s) == s + [p]
  {
    if s != [] {
      InsertLargest(p, s[1..]);
      assert s == [s[0]] + s[1..];
    }
  }

  /** Sorting pairs that are already in key order changes nothing, equal keys included. */
  lemma {:induction false} SortSortedIsIdentity<T>(s: seq<Keyed<T>>)
    requires SortedByKey(s)
    ensures SortByKey(s) == s
  {
    if s != [] {
      var init, last := s[..|s| - 1], s[|s| - 1];
      assert s == init + [last];
      SortSortedIsIdentity(init);
      InsertLargest(last, init);
    }
  }

  /** With non-decreasing keys the shuffle keeps the input order. */
  lemma ShuffleOrderedKeysIsIdentity<T>(xs: seq<T>, keys: seq<real>)
    requires |keys| == |xs|
    requires forall i, j :: 0 <= i < j < |keys| ==> keys[i] <= keys[j]
    ensures Shuffle(xs, keys) == xs
  {
    var d := Decorate(xs, keys);
    SortSortedIsIdentity(d);
    assert Strip(d) == xs;
  }

  // ---------------------------------------------------------------------------
  // Multiset helpers

  lemma {:induction false} DistinctCountAtMostOne<T>(s: seq<T>, x: T)
    requires Distinct(s)
    ensures multiset(s)[x] <= 1
  {
    if s != [] {
      assert s == [s[0]] + s[1..];
      DistinctCountAtMostOne(s[1..], x);
      if s[0] == x {
        assert x !in s[1..];
      }
    }
  }

  lemma RepeatCountAtLeastTwo<T>(s: seq<T>, i: nat, j: nat)
    requires i < j < |s| && s[i] == s[j]
    ensures multiset(s)[s[i]] >= 2
  {
    assert s == s[..j] + [s[j]] + s[j + 1..];
    assert s[..j][i] == s[i];
  }

  /** A sub-multiset of a sequence without repetitions has no repetitions. */
  lemma SubMultisetDistinct<T>(s: seq<T>, t: seq<T>)
    requires Distinct(s)
    requires multiset(t) <= multiset(s)
    ensures Distinct(t)
  {
    forall i, j | 0 <= i < j < |t|
      ensures t[i] != t[j]
    {
      if t[i] == t[j] {
        RepeatCountAtLeastTwo(t, i, j);
        DistinctCountAtMostOne(s, t[i]);
        assert false;
      }
    }
  }

  lemma PrefixSubMultiset<T>(s: seq<T>, k: nat)
    requires k <= |s|
    ensures multiset(s[..k]) <= multiset(s)
  {
    assert s == s[..k] + s[k..];
  }

  // ---------------------------------------------------------------------------
  // The sort result does not depend on the sorting algorithm

  /** All keys differ. */
  ghost predicate DistinctKeys<T>(s: seq<Keyed<T>>) {
    forall i, j :: 0 <= i < j < |s| ==> s[i].1 != s[j].1
  }

  lemma DistinctKeysPermuted<T>(s: seq<Keyed<T>>, t: seq<Keyed<T>>)
    requires DistinctKeys(s)
    requires multiset(t) == multiset(s)
    ensures DistinctKeys(t)
  {
    assert Distinct(s);
    SubMultisetDistinct(s, t);
    forall i, j | 0 <= i < j < |t|
      ensures t[i].1 != t[j].1
    {
      assert t[i] in multiset(s) && t[j] in multiset(s);
      var a :| 0 <= a < |s| && s[a] == t[i];
      var b :| 0 <= b < |s| && s[b] == t[j];
      assert a != b;
    }
  }

  lemma MultisetTail<T>(s: seq<T>)
    requires s != []
    ensures multiset(s[1..]) == multiset(s) - multiset{s[0]}
  {
    assert s == [s[0]] + s[1..];
  }

  lemma MultisetIndex<T>(s: seq<T>, x: T) returns (k: nat)
    requires x in multiset(s)
    ensures k < |s| && s[k] == x
  {
    k :| 0 <= k < |s| && s[k] == x;
  }

  /** Two key-sorted permutations of pairs, one with distinct keys, start with the same pair. */
  lemma SortedHeadsEqual<T>(r1: seq<Keyed<T>>, r2: seq<Keyed<T>>)
    requires SortedByKey(r1) && SortedByKey(r2)
    requires DistinctKeys(r2)
    requires multiset(r1) == multiset(r2)
    requires r1 != []
    ensures r2 != [] && r1[0] == r2[0]
  {
    var j := MultisetIndex(r2, r1[0]);
    var i := MultisetIndex(r1, r2[0]);
    assert r1[0].1 <= r1[i].1;
    assert r2[0].1 <= r2[j].1;
  }

  /** Two key-sorted permutations of pairs with distinct keys are equal. */
  lemma {:induction false} SortedPermutationUnique<T>(r1: seq<Keyed<T>>, r2: seq<Keyed<T>>)
    requires SortedByKey(r1) && SortedByKey(r2)
    requires DistinctKeys(r2)
    requires multiset(r1) == multiset(r2)
    ensures r1 == r2
  {
    if r1 == [] {
      assert |r2| == |multiset(r2)| == 0;
    } else {
      SortedHeadsEqual(r1, r2);
      MultisetTail(r1);
      MultisetTail(r2);
      SortedTail(r1);
      SortedTail(r2);
      SortedPermutationUnique(r1[1..], r2[1..]);
      assert r1 == [r1[0]] + r1[1..];
      assert r2 == [r2[0]] + r2[1..];
    }
  }

  /** With distinct keys, stripping ANY key-sorted permutation of the decorated
      input gives the modelled shuffle: the result does not depend on which
      sorting algorithm the engine uses. */
  lemma ShuffleIndependentOfSortAlgorithm<T>(xs: seq<T>, keys: seq<real>, r: seq<Keyed<T>>)
    requires |keys| == |xs|
    requires forall i, j :: 0 <= i < j < |keys| ==> keys[i] != keys[j]
    requires SortedByKey(r) && multiset(r) == multiset(Decorate(xs, keys))
    ensures Strip(r) == Shuffle(xs, keys)
  {
    var d := Decorate(xs, keys);
    assert DistinctKeys(d);
    DistinctKeysPermuted(d, r);
    SortedPermutationUnique(SortByKey(d), r);
  }

  // ---------------------------------------------------------------------------
  // Sample

  /** A bank of at most 25 questions is kept whole, only reordered. */
  lemma SampleSmallBankIsPermutation<T>(xs: seq<T>, keys: seq<real>)
    requires |keys| == |xs|
    requires |xs| <= MAX_QUESTIONS
    ensures multiset(Sample(xs, keys)) == multiset(xs)
  {
    var s := Shuffle(xs, keys);
    assert s[..|s|] == s;
  }

  /** If the bank's ids are unique, so are the session's. */
  lemma SampleUniqueIds(xs: seq<Question>, keys: seq<real>)
    requires |keys| == |xs|
    requires UniqueIds(xs)
    ensures UniqueIds(Sample(xs, keys))
  {
    var t := Sample(xs, keys);
    assert Distinct(xs);
    SubMultisetDistinct(xs, t);
    forall i, j | 0 <= i < j < |t|
      ensures t[i].id != t[j].id
    {
      assert t[i] in multiset(xs) && t[j] in multiset(xs);
      var a :| 0 <= a < |xs| && xs[a] == t[i];
      var b :| 0 <= b < |xs| && xs[b] == t[j];
      assert a != b;
    }
  }
}

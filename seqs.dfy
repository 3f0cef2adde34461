/** Generic sequence vocabulary shared by the model: an optional value,
    filtering, subsequences, occurrence counts, first-appearance
    de-duplication and prefixes. */
module Seqs {

  datatype Option<T> = None | Some(value: T)

  /** Array.prototype.filter: the elements satisfying `p`, in their order. */
  function Filter<T>(s: seq<T>, p: T -> bool): (r: seq<T>)
    ensures |r| <= |s|
    ensures forall i :: 0 <= i < |r| ==> r[i] in s && p(r[i])
    ensures forall i :: 0 <= i < |s| && p(s[i]) ==> s[i] in r
  {
    if s == [] then [] else (if p(s[0]) then [s[0]] else []) + Filter(s[1..], p)
  }

  lemma {:induction false} FilterAppend<T>(a: seq<T>, b: seq<T>, p: T -> bool)
    ensures Filter(a + b, p) == Filter(a, p) + Filter(b, p)
  {
    if a == [] {
      assert a + b == b;
    } else {
      assert (a + b)[1..] == a[1..] + b;
      FilterAppend(a[1..], b, p);
    }
  }

  /** `a` can be obtained from `b` by deleting elements: order is kept. */
  predicate Subsequence<T(==)>(a: seq<T>, b: seq<T>)
    decreases |b|
  {
    a == [] || (b != [] && ((a[0] == b[0] && Subsequence(a[1..], b[1..])) || Subsequence(a, b[1..])))
  }

  /** A non-empty sequence is its prefix followed by its last element. */
  lemma SplitLast<T>(s: seq<T>)
    requires s != []
    ensures s == s[..|s| - 1] + [s[|s| - 1]]
  {
  }

  /** Filtering one more element adds one exactly when it is kept. */
  lemma FilterCountLast<T>(s: seq<T>, p: T -> bool)
    requires s != []
    ensures |Filter(s, p)| == |Filter(s[..|s| - 1], p)| + if p(s[|s| - 1]) then 1 else 0
  {
    SplitLast(s);
    FilterAppend(s[..|s| - 1], [s[|s| - 1]], p);
    FilterSingle(s[|s| - 1], p);
  }

  /** A kept element sits in the filtered sequence at the number of kept
      elements before it. */
  lemma FilterPosition<T>(s: seq<T>, p: T -> bool, i: nat)
    requires i < |s| && p(s[i])
    ensures |Filter(s[..i], p)| < |Filter(s, p)|
    ensures Filter(s, p)[|Filter(s[..i], p)|] == s[i]
  {
    assert s == s[..i] + ([s[i]] + s[i + 1..]);
    FilterAppend(s[..i], [s[i]] + s[i + 1..], p);
    FilterAppend([s[i]], s[i + 1..], p);
    FilterSingle(s[i], p);
  }

  /** Concatenation regroups around a leading element. */
  lemma ConsAppend<T>(x: T, a: seq<T>, b: seq<T>)
    ensures [x] + (a + b) == ([x] + a) + b
  {
  }

  /** A non-empty sequence holds its first element and the rest. */
  lemma MultisetCons<T>(s: seq<T>)
    requires s != []
    ensures multiset(s) == multiset(s[1..]) + multiset{s[0]}
  {
    assert s == [s[0]] + s[1..];
  }

  /** Filtering a single element keeps it exactly when it satisfies `p`. */
  lemma FilterSingle<T>(x: T, p: T -> bool)
    ensures Filter([x], p) == if p(x) then [x] else []
  {
    assert [x][1..] == [];
  }

  /** A subsequence of a suffix is a subsequence of the whole. */
  lemma {:induction false} SubsequenceOfSuffix<T>(a: seq<T>, b: seq<T>, n: nat)
    requires n <= |b| && Subsequence(a, b[n..])
    ensures Subsequence(a, b)
    decreases n
  {
    if n > 0 {
      assert b[1..][n - 1..] == b[n..];
      SubsequenceOfSuffix(a, b[1..], n - 1);
    }
  }

  /** Every element of a subsequence is an element of the whole. */
  lemma {:induction false} SubsequenceElements<T>(a: seq<T>, b: seq<T>)
    requires Subsequence(a, b)
    ensures forall i :: 0 <= i < |a| ==> a[i] in b
    decreases |b|
  {
    if a != [] {
      if a[0] == b[0] && Subsequence(a[1..], b[1..]) {
        SubsequenceElements(a[1..], b[1..]);
        forall i | 0 <= i < |a|
          ensures a[i] in b
        {
          if i > 0 {
            assert a[i] == a[1..][i - 1];
          }
        }
      } else {
        SubsequenceElements(a, b[1..]);
      }
    }
  }

  /** Keeping the first element keeps a subsequence. */
  lemma SubsequenceCons<T>(x: T, a: seq<T>, b: seq<T>)
    requires b != [] && x == b[0] && Subsequence(a, b[1..])
    ensures Subsequence([x] + a, b)
  {
    assert ([x] + a)[1..] == a;
  }

  lemma {:induction false} FilterIsSubsequence<T>(s: seq<T>, p: T -> bool)
    ensures Subsequence(Filter(s, p), s)
  {
    if s != [] {
      FilterIsSubsequence(s[1..], p);
      if p(s[0]) {
        assert Filter(s, p) == [s[0]] + Filter(s[1..], p);
        assert Filter(s, p)[1..] == Filter(s[1..], p);
      } else {
        assert Filter(s, p) == Filter(s[1..], p);
      }
    }
  }

  /** Filtering by `p` and by its negation splits `s`. */
  lemma {:induction false} FilterPartition<T>(s: seq<T>, p: T -> bool, q: T -> bool)
    requires forall x :: q(x) == !p(x)
    ensures |Filter(s, p)| + |Filter(s, q)| == |s|
    ensures multiset(Filter(s, p)) + multiset(Filter(s, q)) == multiset(s)
  {
    if s != [] {
      FilterPartition(s[1..], p, q);
      assert s == [s[0]] + s[1..];
    }
  }

  /** Number of occurrences of `x` in `s`. */
  function Occurrences<T(==)>(s: seq<T>, x: T): (n: nat)
    ensures n <= |s|
    ensures n > 0 <==> x in s
  {
    if s == [] then 0 else (if s[0] == x then 1 else 0) + Occurrences(s[1..], x)
  }

  /** Filtering keeps every occurrence of an element that passes, and none
      of one that does not. */
  lemma {:induction false} FilterOccurrences<T>(s: seq<T>, p: T -> bool)
    ensures forall x :: Occurrences(Filter(s, p), x) == if p(x) then Occurrences(s, x) else 0
  {
    if s != [] {
      FilterOccurrences(s[1..], p);
      forall x
        ensures Occurrences(Filter(s, p), x) == if p(x) then Occurrences(s, x) else 0
      {
        OccurrencesAppend(if p(s[0]) then [s[0]] else [], Filter(s[1..], p), x);
      }
    }
  }

  lemma {:induction false} OccurrencesAppend<T>(a: seq<T>, b: seq<T>, x: T)
    ensures Occurrences(a + b, x) == Occurrences(a, x) + Occurrences(b, x)
  {
    if a == [] {
      assert a + b == b;
    } else {
      assert (a + b)[1..] == a[1..] + b;
      OccurrencesAppend(a[1..], b, x);
    }
  }

  /** One element occurs once in itself and never as anything else. */
  lemma OccurrencesSingle<T>(x: T, w: T)
    ensures Occurrences([x], w) == if x == w then 1 else 0
  {
    assert [x][1..] == [];
  }

  /** Occurrences after one more element. */
  lemma OccurrencesSnoc<T>(s: seq<T>, x: T, w: T)
    ensures Occurrences(s + [x], w) == Occurrences(s, w) + if x == w then 1 else 0
  {
    OccurrencesAppend(s, [x], w);
    OccurrencesSingle(x, w);
  }

  /** The count of `x` goes up by one, from zero when it is not counted yet. */
  function Increment<T>(m: map<T, nat>, x: T): (r: map<T, nat>)
    ensures x in r && r[x] == (if x in m then m[x] else 0) + 1
  {
    m[x := (if x in m then m[x] else 0) + 1]
  }

  /** Counts built one element at a time: each element's count goes up by
      one, starting from zero. */
  function OccurrenceCounts<T(==)>(s: seq<T>): map<T, nat>
    decreases |s|
  {
    if s == [] then map[] else Increment(OccurrenceCounts(s[..|s| - 1]), s[|s| - 1])
  }

  /** Counting one more element. */
  lemma OccurrenceCountsSnoc<T>(s: seq<T>, x: T)
    ensures OccurrenceCounts(s + [x]) == Increment(OccurrenceCounts(s), x)
  {
    assert (s + [x])[..|s|] == s;
  }

  /** The counts hold every element of `s`, each with its number of
      occurrences. */
  lemma {:induction false} OccurrenceCountsAre<T>(s: seq<T>)
    ensures forall w :: w in OccurrenceCounts(s) <==> w in s
    ensures forall w | w in OccurrenceCounts(s) :: OccurrenceCounts(s)[w] == Occurrences(s, w)
    decreases |s|
  {
    if s != [] {
      var t, x := s[..|s| - 1], s[|s| - 1];
      SplitLast(s);
      OccurrenceCountsAre(t);
      forall w
        ensures w in OccurrenceCounts(s) <==> w in s
        ensures w in OccurrenceCounts(s) ==> OccurrenceCounts(s)[w] == Occurrences(s, w)
      {
        OccurrencesSnoc(t, x, w);
      }
    }
  }

  predicate NoDuplicates<T(==)>(s: seq<T>) {
    forall i, j :: 0 <= i < j < |s| ==> s[i] != s[j]
  }

  /** The distinct elements of `s` in order of first appearance. */
  function Distinct<T(==)>(s: seq<T>): (r: seq<T>)
    ensures NoDuplicates(r)
    ensures forall i :: 0 <= i < |r| ==> r[i] in s
    ensures forall i :: 0 <= i < |s| ==> s[i] in r
  {
    if s == [] then []
    else
      var rest := Distinct(s[..|s| - 1]);
      if s[|s| - 1] in rest then rest else rest + [s[|s| - 1]]
  }

  /** De-duplication keeps first-appearance order: an element listed before
      another occurs in `s` before the other's first occurrence. */
  lemma {:induction false} DistinctOrder<T>(s: seq<T>)
    ensures forall i, j :: 0 <= i < j < |Distinct(s)| ==>
              exists p :: 0 <= p < |s| && s[p] == Distinct(s)[i] && Distinct(s)[j] !in s[..p]
  {
    if s != [] {
      var n := |s| - 1;
      var before, x := s[..n], s[n];
      var rest, r := Distinct(before), Distinct(s);
      DistinctOrder(before);
      assert r == if x in rest then rest else rest + [x];
      forall i, j | 0 <= i < j < |r|
        ensures exists p :: 0 <= p < |s| && s[p] == r[i] && r[j] !in s[..p]
      {
        if j < |rest| {
          assert r[i] == rest[i] && r[j] == rest[j];
          var p :| 0 <= p < |before| && before[p] == rest[i] && rest[j] !in before[..p];
          assert s[p] == before[p] && s[..p] == before[..p];
        } else {
          assert r[j] == x && x !in before;
          assert rest[i] in before;
          var p :| 0 <= p < |before| && before[p] == rest[i];
          assert s[p] == before[p] && s[..p] == before[..p];
        }
      }
    } else {
      assert Distinct(s) == [];
    }
  }

  /** One more element is kept exactly when it is new. */
  lemma DistinctSnoc<T>(s: seq<T>, x: T)
    ensures Distinct(s + [x]) == if x in Distinct(s) then Distinct(s) else Distinct(s) + [x]
  {
    assert (s + [x])[..|s|] == s;
  }

  /** Array.prototype.slice(0, n). */
  function Take<T>(s: seq<T>, n: nat): (r: seq<T>)
    ensures |r| == if |s| < n then |s| else n
    ensures r == s[..|r|]
  {
    if |s| <= n then s else s[..n]
  }

  lemma {:induction false} FilterIdempotent<T>(s: seq<T>, p: T -> bool)
    ensures Filter(Filter(s, p), p) == Filter(s, p)
  {
    if s != [] {
      FilterIdempotent(s[1..], p);
      if p(s[0]) {
        var f := Filter(s, p);
        assert f == [s[0]] + Filter(s[1..], p);
        assert f[0] == s[0] && f[1..] == Filter(s[1..], p);
        assert Filter(f, p) == [s[0]] + Filter(f[1..], p);
      } else {
        assert Filter(s, p) == Filter(s[1..], p);
      }
    }
  }

  /** Without duplicates, every element occurs exactly once. */
  lemma {:induction false} NoDuplicatesMultiset<T>(s: seq<T>)
    ensures NoDuplicates(s) <==> forall x | x in s :: multiset(s)[x] == 1
  {
    if s != [] {
      var t := s[1..];
      assert s == [s[0]] + t;
      NoDuplicatesMultiset(t);
      if NoDuplicates(s) {
        assert NoDuplicates(t) by {
          forall i, j | 0 <= i < j < |t| ensures t[i] != t[j] { assert t[i] == s[i + 1] && t[j] == s[j + 1]; }
        }
        assert s[0] !in t by {
          forall i | 0 <= i < |t| ensures t[i] != s[0] { assert t[i] == s[i + 1]; }
        }
      } else {
        var i, j :| 0 <= i < j < |s| && s[i] == s[j];
        if i == 0 {
          assert s[j] == t[j - 1];
          assert multiset(s)[s[0]] >= 2;
        } else {
          assert t[i - 1] == t[j - 1];
          assert !NoDuplicates(t);
          var x :| x in t && multiset(t)[x] != 1;
          assert multiset(s)[x] == multiset(t)[x] + (if x == s[0] then 1 else 0);
          assert x in s;
        }
      }
    }
  }

  /** Having no duplicates is a property of the multiset of elements. */
  lemma NoDuplicatesPermutation<T>(a: seq<T>, b: seq<T>)
    requires multiset(a) == multiset(b) && NoDuplicates(a)
    ensures NoDuplicates(b)
  {
    NoDuplicatesMultiset(a);
    NoDuplicatesMultiset(b);
    forall x | x in b ensures multiset(b)[x] == 1 {
      assert x in multiset(b);
    }
  }

  /** Array.prototype.map. */
  function Map<A, B>(s: seq<A>, f: A -> B): (r: seq<B>)
    ensures |r| == |s|
    ensures forall i :: 0 <= i < |s| ==> r[i] == f(s[i])
  {
    if s == [] then [] else [f(s[0])] + Map(s[1..], f)
  }

  /** Every element of the first `n` kept elements, mapped by `f`, is the
      image of a kept element of `s`. */
  lemma MapTakeFilter<A, B>(s: seq<A>, p: A -> bool, n: nat, f: A -> B)
    ensures forall k :: 0 <= k < |Map(Take(Filter(s, p), n), f)| ==>
              exists i :: 0 <= i < |s| && p(s[i]) && Map(Take(Filter(s, p), n), f)[k] == f(s[i])
  {
    var found := Filter(s, p);
    var r := Map(Take(found, n), f);
    forall k | 0 <= k < |r|
      ensures exists i :: 0 <= i < |s| && p(s[i]) && r[k] == f(s[i])
    {
      assert r[k] == f(found[k]) && found[k] in s && p(found[k]);
      var i :| 0 <= i < |s| && s[i] == found[k];
    }
  }

  lemma MapAppend<A, B>(a: seq<A>, b: seq<A>, f: A -> B)
    ensures Map(a + b, f) == Map(a, f) + Map(b, f)
  {
    assert forall i :: 0 <= i < |a + b| ==> Map(a + b, f)[i] == (Map(a, f) + Map(b, f))[i];
  }

  lemma MapCons<A, B>(x: A, s: seq<A>, f: A -> B)
    ensures Map([x] + s, f) == [f(x)] + Map(s, f)
  {
    assert ([x] + s)[1..] == s;
  }
}

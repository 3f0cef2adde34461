/** A stable sort by an integer key, largest key first. Array.prototype.sort
    is stable, so sorting with a comparator `(a, b) => key(b) - key(a)` has
    exactly one possible outcome: the permutation that is ordered by the key
    and keeps the input order among equal keys. */
module Sorting {
  import opened Seqs

  predicate SortedDesc<T>(s: seq<T>, key: T -> int) {
    forall i, j :: 0 <= i < j < |s| ==> key(s[i]) >= key(s[j])
  }

  /** The predicate "has key `k`", used to speak of the elements tied at `k`. */
  function HasKey<T>(key: T -> int, k: int): T -> bool {
    x => key(x) == k
  }

  /** Inserts `x` after every element with a larger key and before the rest. */
  function Insert<T>(x: T, s: seq<T>, key: T -> int): (r: seq<T>)
    requires SortedDesc(s, key)
    ensures SortedDesc(r, key)
    ensures multiset(r) == multiset(s) + multiset{x}
    ensures |r| == |s| + 1 && (r[0] == x || (s != [] && r[0] == s[0]))
  {
    if s == [] || key(s[0]) <= key(x) then [x] + s
    else
      var rest := Insert(x, s[1..], key);
      InsertBehind(x, s, key, rest);
      [s[0]] + rest
  }

  /** Putting the head of `s` in front of `x` inserted into the tail keeps
      the order and gives the same elements as `s` and `x` together. */
  lemma InsertBehind<T>(x: T, s: seq<T>, key: T -> int, rest: seq<T>)
    requires s != [] && key(s[0]) > key(x) && SortedDesc(s, key)
    requires SortedDesc(rest, key) && multiset(rest) == multiset(s[1..]) + multiset{x}
    requires |rest| == |s| && (rest[0] == x || (s[1..] != [] && rest[0] == s[1..][0]))
    ensures SortedDesc([s[0]] + rest, key)
    ensures multiset([s[0]] + rest) == multiset(s) + multiset{x}
  {
    var r := [s[0]] + rest;
    MultisetCons(s);
    assert multiset(r) == multiset{s[0]} + multiset(rest);
    assert key(rest[0]) <= key(s[0]) by {
      if rest[0] != x {
        assert rest[0] == s[1];
      }
    }
    forall i, j | 0 <= i < j < |r|
      ensures key(r[i]) >= key(r[j])
    {
      assert r[j] == rest[j - 1];
      if i > 0 {
        assert r[i] == rest[i - 1];
      } else {
        assert key(rest[j - 1]) <= key(rest[0]);
      }
    }
  }

  /** Insertion sort, largest key first. */
  function SortByKeyDesc<T>(s: seq<T>, key: T -> int): (r: seq<T>)
    ensures SortedDesc(r, key)
    ensures multiset(r) == multiset(s)
  {
    if s == [] then []
    else
      MultisetCons(s);
      Insert(s[0], SortByKeyDesc(s[1..], key), key)
  }

  lemma {:induction false} InsertTies<T>(x: T, s: seq<T>, key: T -> int, k: int)
    requires SortedDesc(s, key)
    ensures Filter(Insert(x, s, key), HasKey(key, k)) ==
            (if key(x) == k then [x] else []) + Filter(s, HasKey(key, k))
  {
    var p := HasKey(key, k);
    var r := Insert(x, s, key);
    if s != [] && key(s[0]) > key(x) {
      var rest := Insert(x, s[1..], key);
      InsertTies(x, s[1..], key, k);
      assert r == [s[0]] + rest;
      assert r[1..] == rest;
      assert Filter(r, p) == (if p(s[0]) then [s[0]] else []) + Filter(rest, p);
      assert Filter(s, p) == (if p(s[0]) then [s[0]] else []) + Filter(s[1..], p);
      if key(x) == k {
        assert !p(s[0]);
        assert Filter(r, p) == [x] + Filter(s[1..], p);
      } else {
        assert Filter(rest, p) == Filter(s[1..], p);
      }
    } else {
      assert r == [x] + s;
      assert r[1..] == s;
      assert Filter(r, p) == (if p(x) then [x] else []) + Filter(s, p);
    }
  }

  /** Stability: the elements that tie on any key value appear in the same
      order as in the input. */
  lemma {:induction false} SortIsStable<T>(s: seq<T>, key: T -> int, k: int)
    ensures Filter(SortByKeyDesc(s, key), HasKey(key, k)) == Filter(s, HasKey(key, k))
  {
    if s != [] {
      SortIsStable(s[1..], key, k);
      InsertTies(s[0], SortByKeyDesc(s[1..], key), key, k);
    }
  }
}

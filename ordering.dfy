/** Filtering and ordering of query results. The database applies a filter and
    an ORDER BY on a two-column key; here a filter keeps the order of the table
    and an insertion sort stands for ORDER BY, proved to return the same rows
    sorted by the key. */
module Ordering {

  /** A two-column sort key, compared lexicographically. */
  datatype Key = Key(major: int, minor: int)

  predicate KeyLe(a: Key, b: Key) {
    a.major < b.major || (a.major == b.major && a.minor <= b.minor)
  }

  predicate KeyLt(a: Key, b: Key) {
    KeyLe(a, b) && a != b
  }

  /** Ascending by key. */
  ghost predicate SortedBy<T>(s: seq<T>, key: T -> Key) {
    forall i, j :: 0 <= i < j < |s| ==> KeyLe(key(s[i]), key(s[j]))
  }

  /** Descending by key. */
  ghost predicate SortedDescBy<T>(s: seq<T>, key: T -> Key) {
    forall i, j :: 0 <= i < j < |s| ==> KeyLe(key(s[j]), key(s[i]))
  }

  /** Strictly descending by key. */
  ghost predicate StrictlySortedDescBy<T>(s: seq<T>, key: T -> Key) {
    forall i, j :: 0 <= i < j < |s| ==> KeyLt(key(s[j]), key(s[i]))
  }

  /** Strictly ascending by key: ascending with no two equal keys. */
  ghost predicate StrictlySortedBy<T>(s: seq<T>, key: T -> Key) {
    forall i, j :: 0 <= i < j < |s| ==> KeyLt(key(s[i]), key(s[j]))
  }

  /** The elements of `s` that satisfy `p`, in their order in `s`. */
  function Filter<T(!new)>(s: seq<T>, p: T -> bool): (r: seq<T>)
    ensures |r| <= |s|
    ensures forall x :: x in r <==> x in s && p(x)
    ensures forall k :: 0 <= k < |r| ==> p(r[k])
  {
    if s == [] then []
    else
      var init := Filter(s[..|s| - 1], p);
      assert forall x :: x in s <==> x in s[..|s| - 1] || x == s[|s| - 1];
      if p(s[|s| - 1]) then init + [s[|s| - 1]] else init
  }

  /** Filtering commutes with counting: each element keeps its multiplicity
      when it satisfies `p` and disappears otherwise. */
  lemma {:induction false} FilterMultiset<T(!new)>(s: seq<T>, p: T -> bool, x: T)
    ensures multiset(Filter(s, p))[x] == if p(x) then multiset(s)[x] else 0
  {
    if s != [] {
      var init := s[..|s| - 1];
      FilterMultiset(init, p, x);
      assert s == init + [s[|s| - 1]];
    }
  }

  /** `x` placed in the ascending sequence `s` before the first element with a
      larger key. */
  function InsertBy<T>(x: T, s: seq<T>, key: T -> Key): (r: seq<T>)
    ensures multiset(r) == multiset(s) + multiset{x}
    ensures |r| == |s| + 1
    ensures r[0] == x || (s != [] && r[0] == s[0])
  {
    if s == [] then [x]
    else if KeyLe(key(x), key(s[0])) then [x] + s
    else
      assert s == [s[0]] + s[1..];
      [s[0]] + InsertBy(x, s[1..], key)
  }

  lemma {:induction false} InsertBySorted<T>(x: T, s: seq<T>, key: T -> Key)
    requires SortedBy(s, key)
    ensures SortedBy(InsertBy(x, s, key), key)
  {
    if s != [] && !KeyLe(key(x), key(s[0])) {
      var tail := InsertBy(x, s[1..], key);
      InsertBySorted(x, s[1..], key);
      assert KeyLe(key(s[0]), key(tail[0]));
      var r := [s[0]] + tail;
      forall i, j | 0 <= i < j < |r| ensures KeyLe(key(r[i]), key(r[j])) {
        if i == 0 {
          assert r[j] == tail[j - 1];
          if j > 1 {
            assert KeyLe(key(tail[0]), key(tail[j - 1]));
          }
        } else {
          assert r[i] == tail[i - 1] && r[j] == tail[j - 1];
        }
      }
    }
  }

  /** The rows of `s` ordered by `key` (ORDER BY). */
  function SortBy<T>(s: seq<T>, key: T -> Key): (r: seq<T>)
    ensures multiset(r) == multiset(s)
    ensures |r| == |s|
  {
    if s == [] then []
    else
      assert s == [s[0]] + s[1..];
      InsertBy(s[0], SortBy(s[1..], key), key)
  }

  lemma {:induction false} SortBySorted<T>(s: seq<T>, key: T -> Key)
    ensures SortedBy(SortBy(s, key), key)
  {
    if s != [] {
      SortBySorted(s[1..], key);
      InsertBySorted(s[0], SortBy(s[1..], key), key);
    }
  }

  /** Sorting keeps exactly the elements of its input. */
  lemma SortByMembers<T>(s: seq<T>, key: T -> Key)
    ensures forall x :: x in SortBy(s, key) <==> x in s
  {
    forall x ensures x in SortBy(s, key) <==> x in s {
      assert x in SortBy(s, key) <==> multiset(SortBy(s, key))[x] > 0;
    }
  }

  function Reverse<T>(s: seq<T>): (r: seq<T>)
    ensures |r| == |s|
    ensures multiset(r) == multiset(s)
    ensures forall k :: 0 <= k < |s| ==> r[k] == s[|s| - 1 - k]
  {
    if s == [] then []
    else
      assert s == [s[0]] + s[1..];
      Reverse(s[1..]) + [s[0]]
  }

  lemma ReverseOfSortedIsDescending<T>(s: seq<T>, key: T -> Key)
    requires SortedBy(s, key)
    ensures SortedDescBy(Reverse(s), key)
    ensures StrictlySortedBy(s, key) ==> StrictlySortedDescBy(Reverse(s), key)
  {
  }

  /** A prefix holds no element more often than the whole sequence. */
  lemma PrefixMultiset<T>(s: seq<T>, n: nat)
    requires n <= |s|
    ensures multiset(s[..n]) <= multiset(s)
  {
    assert s == s[..n] + s[n..];
  }

  lemma ReverseMembers<T>(s: seq<T>)
    ensures forall x :: x in Reverse(s) <==> x in s
  {
    var r := Reverse(s);
    forall x ensures x in r <==> x in s {
      if x in s {
        var k :| 0 <= k < |s| && s[k] == x;
        assert r[|s| - 1 - k] == x;
      }
    }
  }

  /** Filtering keeps the elements that satisfy `p` apart by key when they
      were apart in the input. */
  lemma {:induction false} FilterDistinctKeys<T(!new)>(s: seq<T>, p: T -> bool, key: T -> Key)
    requires forall i, j :: 0 <= i < j < |s| && p(s[i]) && p(s[j]) ==> key(s[i]) != key(s[j])
    ensures forall i, j :: 0 <= i < j < |Filter(s, p)| ==> key(Filter(s, p)[i]) != key(Filter(s, p)[j])
  {
    if s != [] {
      var init := s[..|s| - 1];
      var last := s[|s| - 1];
      FilterDistinctKeys(init, p, key);
      var f := Filter(init, p);
      if p(last) {
        var r := f + [last];
        forall i, j | 0 <= i < j < |r| ensures key(r[i]) != key(r[j]) {
          if j == |f| {
            assert r[i] in init;
            var m :| 0 <= m < |init| && init[m] == r[i];
            assert s[m] == r[i] && p(s[m]);
          } else {
            assert r[i] == f[i] && r[j] == f[j];
          }
        }
      }
    }
  }

  lemma {:induction false} InsertByStrict<T>(x: T, s: seq<T>, key: T -> Key)
    requires StrictlySortedBy(s, key)
    requires forall k :: 0 <= k < |s| ==> key(s[k]) != key(x)
    ensures StrictlySortedBy(InsertBy(x, s, key), key)
  {
    if s != [] && !KeyLe(key(x), key(s[0])) {
      var tail := InsertBy(x, s[1..], key);
      InsertByStrict(x, s[1..], key);
      assert KeyLt(key(s[0]), key(tail[0]));
      var r := [s[0]] + tail;
      forall i, j | 0 <= i < j < |r| ensures KeyLt(key(r[i]), key(r[j])) {
        if i == 0 {
          assert r[j] == tail[j - 1];
          if j > 1 {
            assert KeyLt(key(tail[0]), key(tail[j - 1]));
          }
        } else {
          assert r[i] == tail[i - 1] && r[j] == tail[j - 1];
        }
      }
    }
  }

  /** Sorting rows whose keys are pairwise distinct yields a strictly
      ascending sequence. */
  lemma {:induction false} SortByStrict<T>(s: seq<T>, key: T -> Key)
    requires forall i, j :: 0 <= i < j < |s| ==> key(s[i]) != key(s[j])
    ensures StrictlySortedBy(SortBy(s, key), key)
  {
    if s != [] {
      var rest := s[1..];
      assert forall i, j :: 0 <= i < j < |rest| ==> key(rest[i]) != key(rest[j]) by {
        forall i, j | 0 <= i < j < |rest| ensures key(rest[i]) != key(rest[j]) {
          assert rest[i] == s[i + 1] && rest[j] == s[j + 1];
        }
      }
      SortByStrict(rest, key);
      var sorted := SortBy(rest, key);
      forall k | 0 <= k < |sorted| ensures key(sorted[k]) != key(s[0]) {
        assert multiset(sorted)[sorted[k]] > 0;
        assert sorted[k] in rest;
        var m :| 0 <= m < |rest| && rest[m] == sorted[k];
        assert s[m + 1] == sorted[k];
      }
      InsertByStrict(s[0], sorted, key);
    }
  }
}

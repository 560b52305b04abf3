/**
 * Sorting by a real-valued key, standing in for the JDK's `Arrays.sort` on the
 * location array and on the table of distance entries.  Only its contract
 * matters to the model: the result is ordered by key and is a permutation.
 */
module Sorting {

  ghost predicate SortedBy<T>(s: seq<T>, key: T -> real)
  {
    forall i, j :: 0 <= i < j < |s| ==> key(s[i]) <= key(s[j])
  }

  ghost predicate AtLeast<T>(s: seq<T>, v: real, key: T -> real)
  {
    forall k :: 0 <= k < |s| ==> v <= key(s[k])
  }

  function Insert<T>(x: T, s: seq<T>, key: T -> real): (r: seq<T>)
  {
    if s == [] || key(x) <= key(s[0]) then [x] + s else [s[0]] + Insert(x, s[1..], key)
  }

  lemma {:induction false} InsertPermutes<T>(x: T, s: seq<T>, key: T -> real)
    ensures multiset(Insert(x, s, key)) == multiset(s) + multiset{x}
  {
    if !(s == [] || key(x) <= key(s[0])) {
      InsertPermutes(x, s[1..], key);
      assert s == [s[0]] + s[1..];
    }
  }

  lemma {:induction false} InsertSorted<T>(x: T, s: seq<T>, key: T -> real, v: real)
    requires SortedBy(s, key) && AtLeast(s, v, key) && v <= key(x)
    ensures SortedBy(Insert(x, s, key), key) && AtLeast(Insert(x, s, key), v, key)
  {
    var r := Insert(x, s, key);
    if s == [] || key(x) <= key(s[0]) {
      assert r == [x] + s;
      forall i, j | 0 <= i < j < |r|
        ensures key(r[i]) <= key(r[j])
      {
        if i == 0 {
          assert r[j] == s[j - 1] && key(s[0]) <= key(s[j - 1]);
        } else {
          assert r[i] == s[i - 1] && r[j] == s[j - 1];
        }
      }
    } else {
      var t := s[1..];
      assert SortedBy(t, key) by {
        forall i, j | 0 <= i < j < |t|
          ensures key(t[i]) <= key(t[j])
        {
          assert t[i] == s[i + 1] && t[j] == s[j + 1];
        }
      }
      assert AtLeast(t, key(s[0]), key) by {
        forall k | 0 <= k < |t|
          ensures key(s[0]) <= key(t[k])
        {
          assert t[k] == s[k + 1];
        }
      }
      InsertSorted(x, t, key, key(s[0]));
      var rest := Insert(x, t, key);
      assert r == [s[0]] + rest;
      forall i, j | 0 <= i < j < |r|
        ensures key(r[i]) <= key(r[j])
      {
        if i == 0 {
          assert r[j] == rest[j - 1];
        } else {
          assert r[i] == rest[i - 1] && r[j] == rest[j - 1];
        }
      }
      forall k | 0 <= k < |r|
        ensures v <= key(r[k])
      {
        if k > 0 {
          assert r[k] == rest[k - 1];
        }
      }
    }
  }

  function Sort<T>(s: seq<T>, key: T -> real): (r: seq<T>)
  {
    if s == [] then [] else Insert(s[0], Sort(s[1..], key), key)
  }

  /** The sorted result is ordered by key and holds exactly the input's elements. */
  lemma SortProperties<T>(s: seq<T>, key: T -> real)
    ensures SortedBy(Sort(s, key), key)
    ensures multiset(Sort(s, key)) == multiset(s)
    ensures |Sort(s, key)| == |s|
  {
    SortSorted(s, key);
    SortPermutes(s, key);
    assert |multiset(Sort(s, key))| == |multiset(s)|;
  }

  lemma {:induction false} SortSorted<T>(s: seq<T>, key: T -> real)
    ensures SortedBy(Sort(s, key), key)
  {
    if s != [] {
      var t := Sort(s[1..], key);
      SortSorted(s[1..], key);
      var v := if t == [] || key(s[0]) <= key(t[0]) then key(s[0]) else key(t[0]);
      assert AtLeast(t, v, key) by {
        forall k | 0 <= k < |t|
          ensures v <= key(t[k])
        {
          assert key(t[0]) <= key(t[k]);
        }
      }
      InsertSorted(s[0], t, key, v);
    }
  }

  lemma {:induction false} SortPermutes<T>(s: seq<T>, key: T -> real)
    ensures multiset(Sort(s, key)) == multiset(s)
  {
    if s != [] {
      SortPermutes(s[1..], key);
      InsertPermutes(s[0], Sort(s[1..], key), key);
      assert s == [s[0]] + s[1..];
    }
  }

  /** Sorting a sequence that is already in order leaves it as it is. */
  lemma {:induction false} SortOfSorted<T>(s: seq<T>, key: T -> real)
    requires SortedBy(s, key)
    ensures Sort(s, key) == s
  {
    if s != [] {
      SortOfSorted(s[1..], key);
      assert s == [s[0]] + s[1..];
    }
  }

  /** No value occurs twice. */
  ghost predicate DistinctValues<T>(s: seq<T>)
  {
    forall i, j :: 0 <= i < j < |s| ==> s[i] != s[j]
  }

  lemma {:induction false} DistinctIffSingleCounts<T>(s: seq<T>)
    ensures DistinctValues(s) <==> forall v :: multiset(s)[v] <= 1
  {
    if s != [] {
      DistinctIffSingleCounts(s[1..]);
      assert s == [s[0]] + s[1..];
      if DistinctValues(s) {
        assert s[0] !in s[1..];
      }
      if forall v :: multiset(s)[v] <= 1 {
        assert forall v :: multiset(s[1..])[v] <= 1 by {
          forall v ensures multiset(s[1..])[v] <= 1 {
            assert multiset(s)[v] <= 1;
          }
        }
        assert multiset(s)[s[0]] <= 1;
        assert s[0] !in multiset(s[1..]);
        forall i, j | 0 <= i < j < |s|
          ensures s[i] != s[j]
        {
          if i > 0 {
            assert s[i] == s[1..][i - 1] && s[j] == s[1..][j - 1];
          } else {
            assert s[j] in s[1..];
          }
        }
      }
    }
  }

  /** Sorting a sequence of distinct values gives distinct values. */
  lemma SortKeepsDistinct<T>(s: seq<T>, key: T -> real)
    requires DistinctValues(s)
    ensures DistinctValues(Sort(s, key))
  {
    SortProperties(s, key);
    DistinctIffSingleCounts(s);
    DistinctIffSingleCounts(Sort(s, key));
  }
}

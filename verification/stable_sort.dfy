/**
 * A stable sort by a descending integer key, the behaviour of Java's `List.sort`
 * and `Stream.sorted` (both stable) with a reversed `Comparator.comparingLong`.
 * Elements with equal keys keep their input order.
 */
module StableSort {
  import opened Seqs

  /** Keys never increase from left to right. */
  predicate Descending<T>(s: seq<T>, key: T -> int) {
    forall i, j :: 0 <= i < j < |s| ==> key(s[i]) >= key(s[j])
  }

  /** The elements whose key is `k`. */
  function HasKey<T>(key: T -> int, k: int): T -> bool {
    e => key(e) == k
  }

  /** Puts `x` in front of the first element whose key is not larger than its own. */
  function Insert<T(==)>(x: T, s: seq<T>, key: T -> int): (r: seq<T>)
    ensures |r| == |s| + 1
    ensures multiset(r) == multiset(s) + multiset{x}
  {
    if |s| == 0 || key(x) >= key(s[0]) then [x] + s
    else
      assert s == [s[0]] + s[1..];
      [s[0]] + Insert(x, s[1..], key)
  }

  lemma {:induction false} InsertDescending<T>(x: T, s: seq<T>, key: T -> int)
    requires Descending(s, key)
    ensures Descending(Insert(x, s, key), key)
  {
    if |s| > 0 && key(x) < key(s[0]) {
      var rest := Insert(x, s[1..], key);
      InsertDescending(x, s[1..], key);
      forall j | 0 <= j < |rest|
        ensures key(s[0]) >= key(rest[j])
      {
        assert rest[j] in multiset(rest);
        if rest[j] != x {
          assert rest[j] in multiset(s[1..]);
          var i :| 0 <= i < |s[1..]| && s[1..][i] == rest[j];
          assert s[i + 1] == rest[j];
        }
      }
    }
  }

  /** Insertion sort, descending by `key`, stable. */
  function Sort<T(==)>(s: seq<T>, key: T -> int): (r: seq<T>)
    ensures |r| == |s|
    ensures multiset(r) == multiset(s)
    ensures Descending(r, key)
  {
    if |s| == 0 then []
    else
      var rest := Sort(s[1..], key);
      InsertDescending(s[0], rest, key);
      assert s == [s[0]] + s[1..];
      Insert(s[0], rest, key)
  }

  /** In a descending sequence nothing selected by a filter has a larger key than the head. */
  lemma {:induction false} FilterHeadKey<T>(s: seq<T>, key: T -> int, p: T -> bool)
    requires Descending(s, key)
    requires |Filter(s, p)| > 0
    ensures |s| > 0 && key(s[0]) >= key(Filter(s, p)[0])
  {
    if !p(s[0]) {
      assert Filter(s, p) == Filter(s[1..], p);
      assert Descending(s[1..], key);
      FilterHeadKey(s[1..], key, p);
    }
  }

  /** Filtering an insertion is inserting into the filtered sequence. */
  lemma {:induction false} FilterInsert<T>(x: T, s: seq<T>, key: T -> int, p: T -> bool)
    requires Descending(s, key)
    ensures Filter(Insert(x, s, key), p) == if p(x) then Insert(x, Filter(s, p), key) else Filter(s, p)
  {
    if |s| == 0 || key(x) >= key(s[0]) {
      assert Insert(x, s, key) == [x] + s;
      FilterCons(x, s, p);
      var f := Filter(s, p);
      if p(x) && |f| > 0 {
        FilterHeadKey(s, key, p);
        assert Insert(x, f, key) == [x] + f;
      }
    } else {
      var tail := s[1..];
      assert s == [s[0]] + tail;
      assert Descending(tail, key);
      FilterInsert(x, tail, key, p);
      var ins := Insert(x, tail, key);
      var ft := Filter(tail, p);
      assert Insert(x, s, key) == [s[0]] + ins;
      FilterCons(s[0], ins, p);
      FilterCons(s[0], tail, p);
      if !p(x) {
        assert Filter(ins, p) == ft;
      } else if p(s[0]) {
        assert Filter(Insert(x, s, key), p) == [s[0]] + Insert(x, ft, key);
        assert Filter(s, p) == [s[0]] + ft;
        assert Insert(x, [s[0]] + ft, key) == [s[0]] + Insert(x, ft, key) by {
          assert ([s[0]] + ft)[0] == s[0];
          assert ([s[0]] + ft)[1..] == ft;
        }
      } else {
        assert Filter(Insert(x, s, key), p) == Insert(x, ft, key);
        assert Filter(s, p) == ft;
      }
    }
  }

  /** Sorting and filtering commute: the sort is stable with respect to every sub-selection. */
  lemma {:induction false} SortFilter<T>(s: seq<T>, key: T -> int, p: T -> bool)
    ensures Filter(Sort(s, key), p) == Sort(Filter(s, p), key)
  {
    if |s| > 0 {
      var tail := s[1..];
      var sortedTail := Sort(tail, key);
      var ft := Filter(tail, p);
      assert s == [s[0]] + tail;
      SortFilter(tail, key, p);
      assert Sort(s, key) == Insert(s[0], sortedTail, key);
      FilterInsert(s[0], sortedTail, key, p);
      FilterCons(s[0], tail, p);
      if p(s[0]) {
        assert Filter(s, p) == [s[0]] + ft;
        assert Sort([s[0]] + ft, key) == Insert(s[0], Sort(ft, key), key) by {
          assert ([s[0]] + ft)[0] == s[0];
          assert ([s[0]] + ft)[1..] == ft;
        }
        calc {
          Filter(Sort(s, key), p);
          Insert(s[0], Filter(sortedTail, p), key);
          Insert(s[0], Sort(ft, key), key);
          Sort(Filter(s, p), key);
        }
      } else {
        assert Filter(s, p) == ft;
        calc {
          Filter(Sort(s, key), p);
          Filter(sortedTail, p);
          Sort(ft, key);
        }
      }
    }
  }

  /** A sequence that is already descending is left as it is. */
  lemma {:induction false} SortDescending<T>(s: seq<T>, key: T -> int)
    requires Descending(s, key)
    ensures Sort(s, key) == s
  {
    if |s| > 0 {
      assert Descending(s[1..], key);
      SortDescending(s[1..], key);
      assert s == [s[0]] + s[1..];
    }
  }

  /** Filtering keeps a sequence descending. */
  lemma FilterDescending<T>(s: seq<T>, key: T -> int, p: T -> bool)
    requires Descending(s, key)
    ensures Descending(Filter(s, p), key)
  {
    SortDescending(s, key);
    SortFilter(s, key, p);
  }

  /** Stability: the elements that share a key come out in their input order. */
  lemma SortStable<T>(s: seq<T>, key: T -> int, k: int)
    ensures Filter(Sort(s, key), HasKey(key, k)) == Filter(s, HasKey(key, k))
  {
    var f := Filter(s, HasKey(key, k));
    SortFilter(s, key, HasKey(key, k));
    FilterSatisfies(s, HasKey(key, k));
    assert forall i :: 0 <= i < |f| ==> key(f[i]) == k;
    SortDescending(f, key);
  }

  /** An element whose key is at least every other key is placed first. */
  lemma SortMaximalFirst<T>(x: T, s: seq<T>, key: T -> int)
    requires forall i :: 0 <= i < |s| ==> key(x) >= key(s[i])
    ensures Sort([x] + s, key) == [x] + Sort(s, key)
  {
    assert ([x] + s)[1..] == s;
    var rest := Sort(s, key);
    if |rest| > 0 {
      assert rest[0] in multiset(s);
    }
  }

  /**
   * Sorting by `key` and then, stably, by `group`: the elements of one group come out in the order of
   * sorting that group alone by `key`.
   */
  lemma SortThenGroup<T>(s: seq<T>, key: T -> int, group: T -> int, g: int)
    ensures Filter(Sort(Sort(s, key), group), HasKey(group, g)) == Sort(Filter(s, HasKey(group, g)), key)
  {
    SortStable(Sort(s, key), group, g);
    SortFilter(s, key, HasKey(group, g));
  }
}

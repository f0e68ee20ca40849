/** A stable sort by an integer key, standing for the library sorts the source
    calls (`sort_by` on the A* open list, `par_sort_by` on exit lists). Both are
    stable, so a sort is fixed by two facts proved here: the output is ordered
    by key, and for every key value the elements carrying it keep their order. */
module StableSort {

  ghost predicate SortedBy<T>(s: seq<T>, key: T -> int)
  {
    forall i, j :: 0 <= i < j < |s| ==> key(s[i]) <= key(s[j])
  }

  /** The elements of s whose key is v, in their order in s. */
  function Filter<T>(s: seq<T>, key: T -> int, v: int): seq<T>
  {
    if s == [] then []
    else Filter(s[..|s| - 1], key, v) + (if key(s[|s| - 1]) == v then [s[|s| - 1]] else [])
  }

  /** Inserts x after every element whose key is at most key(x). */
  function InsertBy<T(==)>(s: seq<T>, x: T, key: T -> int): (r: seq<T>)
    requires SortedBy(s, key)
    ensures |r| == |s| + 1
    ensures SortedBy(r, key)
    ensures multiset(r) == multiset(s) + multiset{x}
    ensures forall y :: y in r ==> y == x || y in s
  {
    if s == [] || key(s[|s| - 1]) <= key(x) then s + [x]
    else
      var init, last := s[..|s| - 1], s[|s| - 1];
      assert s == init + [last];
      var r := InsertBy(init, x, key);
      assert forall i :: 0 <= i < |r| ==> key(r[i]) <= key(last) by {
        forall i | 0 <= i < |r|
          ensures key(r[i]) <= key(last)
        {
          assert r[i] in r;
          if r[i] != x {
            var j :| 0 <= j < |init| && init[j] == r[i];
          }
        }
      }
      r + [last]
  }

  /** Insertion sort, taking the elements from the front. */
  function SortBy<T(==)>(s: seq<T>, key: T -> int): (r: seq<T>)
    ensures |r| == |s|
    ensures SortedBy(r, key)
    ensures multiset(r) == multiset(s)
  {
    if s == [] then []
    else
      assert s == s[..|s| - 1] + [s[|s| - 1]];
      InsertBy(SortBy(s[..|s| - 1], key), s[|s| - 1], key)
  }

  lemma {:induction false} FilterAppend<T>(a: seq<T>, b: seq<T>, key: T -> int, v: int)
    ensures Filter(a + b, key, v) == Filter(a, key, v) + Filter(b, key, v)
    decreases |b|
  {
    if b == [] {
      assert a + b == a;
    } else {
      var init, last := b[..|b| - 1], b[|b| - 1];
      assert a + b == (a + init) + [last];
      assert (a + b)[..|a + b| - 1] == a + init;
      FilterAppend(a, init, key, v);
    }
  }

  lemma {:induction false} InsertByFilter<T>(s: seq<T>, x: T, key: T -> int, v: int)
    requires SortedBy(s, key)
    ensures Filter(InsertBy(s, x, key), key, v) == Filter(s, key, v) + Filter([x], key, v)
    decreases |s|
  {
    if s == [] || key(s[|s| - 1]) <= key(x) {
      FilterAppend(s, [x], key, v);
    } else {
      var init, last := s[..|s| - 1], s[|s| - 1];
      var r := InsertBy(init, x, key);
      assert InsertBy(s, x, key) == r + [last];
      InsertByFilter(init, x, key, v);
      FilterAppend(r, [last], key, v);
      var fx, fl := Filter([x], key, v), Filter([last], key, v);
      assert s == init + [last];
      FilterAppend(init, [last], key, v);
      assert Filter(s, key, v) == Filter(init, key, v) + fl;
      assert fx == [] || fl == [];
      calc {
        Filter(InsertBy(s, x, key), key, v);
        Filter(r, key, v) + fl;
        Filter(init, key, v) + fx + fl;
        Filter(init, key, v) + fl + fx;
      }
    }
  }

  /** Stability: for every key value, sorting keeps the elements carrying it in
      the order they had. */
  lemma {:induction false} SortByStable<T>(s: seq<T>, key: T -> int, v: int)
    ensures Filter(SortBy(s, key), key, v) == Filter(s, key, v)
    decreases |s|
  {
    if s != [] {
      var init, last := s[..|s| - 1], s[|s| - 1];
      SortByStable(init, key, v);
      InsertByFilter(SortBy(init, key), last, key, v);
      assert Filter(s, key, v) == Filter(init, key, v) + Filter([last], key, v);
    }
  }

  lemma {:induction false} FilterNone<T>(s: seq<T>, key: T -> int, v: int)
    requires forall j :: 0 <= j < |s| ==> key(s[j]) != v
    ensures Filter(s, key, v) == []
    decreases |s|
  {
    if s != [] {
      FilterNone(s[..|s| - 1], key, v);
    }
  }

  lemma FilterHead<T>(s: seq<T>, key: T -> int)
    requires s != []
    ensures Filter(s, key, key(s[0])) != [] && Filter(s, key, key(s[0]))[0] == s[0]
  {
    assert s == [s[0]] + s[1..];
    FilterAppend([s[0]], s[1..], key, key(s[0]));
    assert Filter([s[0]], key, key(s[0])) == [s[0]];
  }

  /** The first position of s holding key v, given that one does. */
  lemma {:induction false} FirstWithKey<T>(s: seq<T>, key: T -> int, v: int, i: nat) returns (k: nat)
    requires i < |s| && key(s[i]) == v
    ensures k <= i && key(s[k]) == v
    ensures forall j :: 0 <= j < k ==> key(s[j]) != v
  {
    k := 0;
    while key(s[k]) != v
      invariant k <= i
      decreases i - k
      invariant forall j :: 0 <= j < k ==> key(s[j]) != v
    {
      k := k + 1;
    }
  }

  /** The head of an ascending sort is an element of least key. */
  lemma SortByHeadLeast<T>(s: seq<T>, key: T -> int)
    requires s != []
    ensures SortBy(s, key)[0] in s
    ensures forall j :: 0 <= j < |s| ==> key(SortBy(s, key)[0]) <= key(s[j])
  {
    var r := SortBy(s, key);
    assert r[0] in multiset(r);
    forall j | 0 <= j < |s|
      ensures key(r[0]) <= key(s[j])
    {
      assert s[j] in multiset(s);
      assert s[j] in r;
      var m :| 0 <= m < |r| && r[m] == s[j];
      assert m == 0 || key(r[0]) <= key(r[m]);
    }
  }

  /** The head of a stable ascending sort is the first element of minimal key. */
  lemma SortByHead<T>(s: seq<T>, key: T -> int) returns (k: nat)
    requires s != []
    ensures k < |s| && SortBy(s, key)[0] == s[k]
    ensures forall j :: 0 <= j < |s| ==> key(s[k]) <= key(s[j])
    ensures forall j :: 0 <= j < k ==> key(s[j]) > key(s[k])
  {
    var r := SortBy(s, key);
    SortByHeadLeast(s, key);
    var v := key(r[0]);
    var i :| 0 <= i < |s| && s[i] == r[0];
    k := FirstWithKey(s, key, v, i);
    FilterFirst(s, key, k);
    FilterHead(r, key);
    SortByStable(s, key, v);
  }

  /** The elements of key v start with the first one in s. */
  lemma FilterFirst<T>(s: seq<T>, key: T -> int, k: nat)
    requires k < |s| && forall j :: 0 <= j < k ==> key(s[j]) != key(s[k])
    ensures Filter(s, key, key(s[k])) != [] && Filter(s, key, key(s[k]))[0] == s[k]
  {
    var v := key(s[k]);
    assert s == s[..k] + s[k..];
    FilterAppend(s[..k], s[k..], key, v);
    FilterNone(s[..k], key, v);
    FilterHead(s[k..], key);
  }
}

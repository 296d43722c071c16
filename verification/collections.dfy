/** Generic helpers shared by the components: an Option type, the order-preserving
    filter that JavaScript's `Array.prototype.filter` performs, and a stable sort
    by a (year, month) key in descending order. */
module Collections {

  datatype Option<T> = None | Some(value: T)

  /** `s.filter(p)`: the elements of `s` satisfying `p`, in their original order.
      Defined from the back so that appending one element is a single unfolding. */
  function Filter<T(==,!new)>(s: seq<T>, p: T -> bool): (r: seq<T>)
    ensures |r| <= |s|
    ensures forall x :: x in r <==> x in s && p(x)
    ensures forall i :: 0 <= i < |r| ==> p(r[i])
  {
    if s == [] then []
    else
      var init, last := s[..|s| - 1], s[|s| - 1];
      assert s == init + [last];
      Filter(init, p) + (if p(last) then [last] else [])
  }

  /** Filtering one appended element. */
  lemma FilterSnoc<T(!new)>(s: seq<T>, x: T, p: T -> bool)
    ensures Filter(s + [x], p) == Filter(s, p) + (if p(x) then [x] else [])
  {
    assert (s + [x])[..|s + [x]| - 1] == s;
  }

  /** Filtering distributes over concatenation: order within the result follows input order. */
  lemma {:induction false} FilterAppend<T(!new)>(a: seq<T>, b: seq<T>, p: T -> bool)
    ensures Filter(a + b, p) == Filter(a, p) + Filter(b, p)
    decreases |b|
  {
    if b == [] {
      assert a + b == a;
    } else {
      var init, last := b[..|b| - 1], b[|b| - 1];
      var tail := if p(last) then [last] else [];
      assert b == init + [last];
      assert a + b == (a + init) + [last];
      calc {
        Filter(a + b, p);
        { FilterSnoc(a + init, last, p); }
        Filter(a + init, p) + tail;
        { FilterAppend(a, init, p); }
        (Filter(a, p) + Filter(init, p)) + tail;
        Filter(a, p) + (Filter(init, p) + tail);
        { FilterSnoc(init, last, p); }
        Filter(a, p) + Filter(b, p);
      }
    }
  }

  /** A filter that nothing passes is empty. */
  lemma FilterNone<T(!new)>(s: seq<T>, p: T -> bool)
    requires forall x :: x in s ==> !p(x)
    ensures Filter(s, p) == []
  {
    if Filter(s, p) != [] {
      assert Filter(s, p)[0] in Filter(s, p);
    }
  }

  /** No element occurs twice (JavaScript `Set` and `Map` keys). */
  predicate Distinct<T(==,!new)>(s: seq<T>) {
    forall i, j :: 0 <= i < j < |s| ==> s[i] != s[j]
  }

  /** Lexicographic "not before" on (year, month) pairs: `a` may precede `b`
      in a list ordered newest first. */
  predicate NewerOrSame(a: (int, int), b: (int, int)) {
    a.0 > b.0 || (a.0 == b.0 && a.1 >= b.1)
  }

  predicate SortedNewestFirst<T(==,!new)>(s: seq<T>, key: T -> (int, int)) {
    forall i, j :: 0 <= i < j < |s| ==> NewerOrSame(key(s[i]), key(s[j]))
  }

  /** Insert `x` before the first element it is not older than (stable for equal keys
      when the list is built from the back). */
  function InsertNewestFirst<T(==,!new)>(x: T, s: seq<T>, key: T -> (int, int)): (r: seq<T>)
    requires SortedNewestFirst(s, key)
    ensures SortedNewestFirst(r, key)
    ensures multiset(r) == multiset(s) + multiset{x}
    ensures |r| == |s| + 1
    ensures r[0] == x || (s != [] && r[0] == s[0])
  {
    if s == [] || NewerOrSame(key(x), key(s[0])) then
      [x] + s
    else
      var rest := InsertNewestFirst(x, s[1..], key);
      assert s == [s[0]] + s[1..];
      assert NewerOrSame(key(s[0]), key(rest[0]));
      [s[0]] + rest
  }

  /** A stable sort by `key`, newest first: the model of `ORDER BY year DESC, month DESC`
      and of `Array.prototype.sort` with the comparator `b.year - a.year || b.month - a.month`. */
  function SortNewestFirst<T(==,!new)>(s: seq<T>, key: T -> (int, int)): (r: seq<T>)
    ensures SortedNewestFirst(r, key)
    ensures multiset(r) == multiset(s)
    ensures |r| == |s|
  {
    if s == [] then []
    else
      assert s == [s[0]] + s[1..];
      InsertNewestFirst(s[0], SortNewestFirst(s[1..], key), key)
  }

  /** No two elements share a key. */
  predicate KeysDistinct<T(!new)>(s: seq<T>, key: T -> (int, int)) {
    forall i, j :: 0 <= i < j < |s| ==> key(s[i]) != key(s[j])
  }

  lemma InsertMembers<T(!new)>(x: T, s: seq<T>, key: T -> (int, int))
    requires SortedNewestFirst(s, key)
    ensures forall y :: y in InsertNewestFirst(x, s, key) <==> y == x || y in s
  {
    var r := InsertNewestFirst(x, s, key);
    forall y ensures y in r <==> y == x || y in s {
      assert y in r <==> y in multiset(r);
      assert y in s <==> y in multiset(s);
    }
  }

  lemma {:induction false} InsertKeepsKeysDistinct<T(!new)>(x: T, s: seq<T>, key: T -> (int, int))
    requires SortedNewestFirst(s, key) && KeysDistinct(s, key)
    requires forall y :: y in s ==> key(y) != key(x)
    ensures KeysDistinct(InsertNewestFirst(x, s, key), key)
    decreases |s|
  {
    if s != [] && !NewerOrSame(key(x), key(s[0])) {
      var rest := InsertNewestFirst(x, s[1..], key);
      assert forall y :: y in s[1..] ==> y in s;
      InsertKeepsKeysDistinct(x, s[1..], key);
      InsertMembers(x, s[1..], key);
      forall y | y in rest ensures key(y) != key(s[0]) {
        if y in s[1..] {
          var j :| 0 <= j < |s[1..]| && s[1..][j] == y;
          assert s[j + 1] == y;
        }
      }
      var r := [s[0]] + rest;
      forall i, j | 0 <= i < j < |r| ensures key(r[i]) != key(r[j]) {
        if i == 0 {
          assert r[j] in rest;
        } else {
          assert r[i] == rest[i - 1] && r[j] == rest[j - 1];
        }
      }
    }
  }

  /** Sorting keeps the elements, so it keeps them apart by key. */
  lemma {:induction false} SortKeepsKeysDistinct<T(!new)>(s: seq<T>, key: T -> (int, int))
    requires KeysDistinct(s, key)
    ensures KeysDistinct(SortNewestFirst(s, key), key)
    decreases |s|
  {
    if s != [] {
      var rest := SortNewestFirst(s[1..], key);
      SortKeepsKeysDistinct(s[1..], key);
      forall y | y in rest ensures key(y) != key(s[0]) {
        assert y in multiset(rest);
        assert y in s[1..];
        var j :| 0 <= j < |s[1..]| && s[1..][j] == y;
        assert s[j + 1] == y;
      }
      InsertKeepsKeysDistinct(s[0], rest, key);
    }
  }

  /** Filtering keeps a list free of duplicates. */
  lemma {:induction false} FilterKeepsDistinct<T(!new)>(s: seq<T>, p: T -> bool)
    requires Distinct(s)
    ensures Distinct(Filter(s, p))
    decreases |s|
  {
    if s != [] {
      var init, last := s[..|s| - 1], s[|s| - 1];
      assert s == init + [last];
      assert Distinct(init) by {
        forall i, j | 0 <= i < j < |init| ensures init[i] != init[j] {
          assert s[i] != s[j];
        }
      }
      FilterKeepsDistinct(init, p);
      FilterSnoc(init, last, p);
      forall i | 0 <= i < |init| ensures init[i] != last {
        assert s[i] != s[|s| - 1];
      }
    }
  }
}

/** The stream stages the procedures use, on sequences: `filter`,
    `sorted(Comparator.comparingLong(key))` and `limit(n)`. */
module Streams {

  /** The elements of `s` that satisfy `keep`, in their original order. */
  function Filter<T(!new)>(s: seq<T>, keep: T -> bool): (r: seq<T>)
    ensures forall x :: x in r <==> x in s && keep(x)
    ensures forall x {:trigger multiset(r)[x]} :: multiset(r)[x] == if keep(x) then multiset(s)[x] else 0
    ensures multiset(r) <= multiset(s)
  {
    if s == [] then []
    else
      assert s == [s[0]] + s[1..];
      if keep(s[0]) then [s[0]] + Filter(s[1..], keep) else Filter(s[1..], keep)
  }

  /** `r` can be obtained from `s` by deleting elements. */
  predicate IsSubsequence<T(==)>(r: seq<T>, s: seq<T>)
    decreases |s|
  {
    if r == [] then true
    else if s == [] then false
    else (r[0] == s[0] && IsSubsequence(r[1..], s[1..])) || IsSubsequence(r, s[1..])
  }

  lemma {:induction false} FilterIsSubsequence<T(!new)>(s: seq<T>, keep: T -> bool)
    ensures IsSubsequence(Filter(s, keep), s)
    decreases |s|
  {
    if s != [] {
      FilterIsSubsequence(s[1..], keep);
      var r := Filter(s, keep);
      if keep(s[0]) {
        assert r[0] == s[0] && r[1..] == Filter(s[1..], keep);
      }
    }
  }

  /** `Filter` on a non-empty sequence decides its first element. */
  lemma FilterCons<T(!new)>(s: seq<T>, keep: T -> bool)
    requires s != []
    ensures Filter(s, keep) == (if keep(s[0]) then [s[0]] else []) + Filter(s[1..], keep)
  {
  }

  /** Filtering a sequence grown by one element grows the result by that
      element exactly when it is kept. */
  lemma {:induction false} FilterSnoc<T(!new)>(s: seq<T>, x: T, keep: T -> bool)
    ensures Filter(s + [x], keep) == Filter(s, keep) + (if keep(x) then [x] else [])
    decreases |s|
  {
    if s == [] {
      assert [x][1..] == [];
      FilterCons([x], keep);
      assert s + [x] == [x];
    } else {
      var head := if keep(s[0]) then [s[0]] else [];
      var tail := if keep(x) then [x] else [];
      assert (s + [x])[0] == s[0];
      assert (s + [x])[1..] == s[1..] + [x];
      calc {
        Filter(s + [x], keep);
      == { FilterCons(s + [x], keep); }
        head + Filter(s[1..] + [x], keep);
      == { FilterSnoc(s[1..], x, keep); }
        head + (Filter(s[1..], keep) + tail);
      ==
        (head + Filter(s[1..], keep)) + tail;
      == { FilterCons(s, keep); }
        Filter(s, keep) + tail;
      }
    }
  }

  /** Filtering the prefix one element longer appends that element exactly
      when it is kept. */
  lemma FilterPrefixStep<T(!new)>(s: seq<T>, i: nat, keep: T -> bool)
    requires i < |s|
    ensures Filter(s[..i + 1], keep) == Filter(s[..i], keep) + (if keep(s[i]) then [s[i]] else [])
  {
    FilterSnoc(s[..i], s[i], keep);
    assert s[..i + 1] == s[..i] + [s[i]];
  }

  /** Ascending by `key`. */
  predicate SortedBy<T>(s: seq<T>, key: T -> int) {
    forall i, j :: 0 <= i < j < |s| ==> key(s[i]) <= key(s[j])
  }

  /** Places `x` in front of the first element whose key is not smaller. */
  function Insert<T(!new)>(x: T, s: seq<T>, key: T -> int): (r: seq<T>)
    requires SortedBy(s, key)
    ensures SortedBy(r, key)
    ensures multiset(r) == multiset(s) + multiset{x}
    ensures forall y :: y in r <==> y == x || y in s
  {
    if s == [] || key(x) <= key(s[0]) then
      [x] + s
    else
      assert s == [s[0]] + s[1..];
      var rest := Insert(x, s[1..], key);
      assert forall y :: y in rest ==> key(s[0]) <= key(y) by {
        forall y | y in rest
          ensures key(s[0]) <= key(y)
        {
          if y != x {
            var j :| 0 <= j < |s[1..]| && s[1..][j] == y;
            assert s[j + 1] == y;
          }
        }
      }
      ConsSorted(s[0], rest, key);
      [s[0]] + rest
  }

  /** An element with a key no larger than any in an ascending sequence can
      go in front of it. */
  lemma ConsSorted<T>(h: T, s: seq<T>, key: T -> int)
    requires SortedBy(s, key)
    requires forall y :: y in s ==> key(h) <= key(y)
    ensures SortedBy([h] + s, key)
  {
    var r := [h] + s;
    forall i, j | 0 <= i < j < |r|
      ensures key(r[i]) <= key(r[j])
    {
      assert r[j] == s[j - 1];
      if i > 0 {
        assert r[i] == s[i - 1];
      }
    }
  }

  /** A stable insertion sort by `key`: the result is ascending and holds
      exactly the elements of `s`. */
  function SortBy<T(!new)>(s: seq<T>, key: T -> int): (r: seq<T>)
    ensures SortedBy(r, key)
    ensures multiset(r) == multiset(s)
    ensures |r| == |s|
  {
    if s == [] then []
    else
      assert s == [s[0]] + s[1..];
      Insert(s[0], SortBy(s[1..], key), key)
  }

  function Min(a: int, b: int): int {
    if a <= b then a else b
  }

  /** `r` is what `sorted(key).limit(n)` yields on `s`, up to the order of
      elements with equal keys: the `n` (or all, if fewer) elements of `s`
      with the smallest keys, ascending, and no element left behind has a
      smaller key than one taken. */
  ghost predicate FirstByKey<T>(r: seq<T>, s: seq<T>, key: T -> int, n: nat) {
    && |r| == Min(n, |s|)
    && multiset(r) <= multiset(s)
    && SortedBy(r, key)
    && forall x, y :: x in multiset(s) - multiset(r) && y in r ==> key(y) <= key(x)
  }

  /** `sorted(Comparator.comparingLong(key)).limit(n)`. */
  function SortLimit<T(!new)>(s: seq<T>, key: T -> int, n: nat): (r: seq<T>)
    ensures FirstByKey(r, s, key, n)
  {
    var sorted := SortBy(s, key);
    var k := Min(n, |s|);
    PrefixHoldsSmallest(sorted, key, k);
    sorted[..k]
  }

  /** Cutting a sequence at `k` splits its multiset into the two parts. */
  lemma PrefixRemainder<T>(s: seq<T>, k: nat)
    requires k <= |s|
    ensures multiset(s) - multiset(s[..k]) == multiset(s[k..])
  {
    assert s == s[..k] + s[k..];
    assert multiset(s) == multiset(s[..k]) + multiset(s[k..]);
  }

  /** In an ascending sequence, the elements after position `k` have keys
      no smaller than those before it. */
  lemma PrefixHoldsSmallest<T>(s: seq<T>, key: T -> int, k: nat)
    requires SortedBy(s, key) && k <= |s|
    ensures SortedBy(s[..k], key)
    ensures multiset(s) - multiset(s[..k]) == multiset(s[k..])
    ensures forall x, y :: x in multiset(s) - multiset(s[..k]) && y in s[..k] ==> key(y) <= key(x)
  {
    PrefixRemainder(s, k);
    forall x, y | x in multiset(s[k..]) && y in s[..k]
      ensures key(y) <= key(x)
    {
      var j :| 0 <= j < |s[k..]| && s[k..][j] == x;
      var i :| 0 <= i < k && s[..k][i] == y;
      assert s[i] == y && s[k + j] == x;
    }
  }
}

/**
 * The sorted view of the table (src/components/DataTable/DataTable.tsx, lines 33-45).
 *
 * The code copies `data` and sorts the copy with `Array.prototype.sort` and a nulls-last
 * comparator; here a stable insertion sort with the same comparator stands in for
 * `Array.prototype.sort`. ECMA-262 (section 23.1.3.30 of the 2023 edition) fixes the result
 * of the sort, stable since the 2019 edition, only when the comparator is consistent for
 * the elements of the array, and that includes every element compared with itself. The
 * comparator answers 1 for a row without the value compared with itself, and 1 in both
 * orders for two such rows, so as soon as one row lacks the value the whole order of the
 * result is left to the implementation. The properties below about order and stability are
 * therefore facts of the stand-in; they are what the program is guaranteed to produce only
 * when every row carries the value, where the comparator is consistent
 * (`CompareConsistentOnValues`).
 */
module TableSort {
  import opened Wrappers
  import opened TableTypes

  /** The comparator passed to `arr.sort`: positive means `a` goes after `b`. */
  function Compare(a: Row, b: Row, key: Key, asc: bool): int {
    var av := Project(a, key);
    var bv := Project(b, key);
    if av.None? then 1
    else if bv.None? then -1
    else if av.value == bv.value then 0
    else if av.value > bv.value then (if asc then 1 else -1)
    else if asc then -1 else 1
  }

  /**
   * The order the view is meant to have: `a` may stand before `b` when `b` has no value,
   * or both have one and they are in the requested direction. Rows without a value come
   * last in both directions.
   */
  predicate Before(a: Row, b: Row, key: Key, asc: bool) {
    match (Project(a, key), Project(b, key))
    case (_, None) => true
    case (None, Some(_)) => false
    case (Some(x), Some(y)) => if asc then x <= y else x >= y
  }

  /** Every pair of positions of `v` is in the order `Before`. */
  predicate Ordered(v: seq<Row>, key: Key, asc: bool) {
    forall i, j :: 0 <= i < j < |v| ==> Before(v[i], v[j], key, asc)
  }

  /** The rows of `s` whose value at `key` is `x`, in the order of `s`. */
  function Matching(s: seq<Row>, key: Key, x: Value): (r: seq<Row>)
    ensures |r| <= |s|
    ensures forall row :: row in r ==> row in s && Project(row, key) == Some(x)
  {
    if s == [] then []
    else
      var last := s[|s| - 1];
      Matching(s[..|s| - 1], key, x) + (if Project(last, key) == Some(x) then [last] else [])
  }

  /** Inserts `x` into `s`, moving it left past every row the comparator puts after it. */
  function Insert(s: seq<Row>, x: Row, key: Key, asc: bool): (r: seq<Row>)
    ensures |r| == |s| + 1
  {
    if s == [] then [x]
    else if Compare(s[|s| - 1], x, key, asc) > 0 then Insert(s[..|s| - 1], x, key, asc) + [s[|s| - 1]]
      else s + [x]
  }

  /** The stable insertion sort that stands in for `Array.prototype.sort`. */
  function InsertionSort(s: seq<Row>, key: Key, asc: bool): (r: seq<Row>)
    ensures |r| == |s|
  {
    if s == [] then []
    else Insert(InsertionSort(s[..|s| - 1], key, asc), s[|s| - 1], key, asc)
  }

  /** `sortKey` as the code tests it with `!sortKey`: `null` and the empty string are false. */
  predicate Active(sortKey: Option<Key>) {
    sortKey.Some? && sortKey.value != ""
  }

  /** The `sorted` memo: `data` itself without an active key, a sorted copy otherwise. */
  function View(data: seq<Row>, sortKey: Option<Key>, asc: bool): (v: seq<Row>)
    ensures multiset(v) == multiset(data)
    ensures |v| == |data|
    ensures !Active(sortKey) ==> v == data
  {
    if !Active(sortKey) then data
    else
      SortPermutes(data, sortKey.value, asc);
      InsertionSort(data, sortKey.value, asc)
  }

  // ----- permutation -----------------------------------------------------------------

  lemma {:induction false} InsertPermutes(s: seq<Row>, x: Row, key: Key, asc: bool)
    ensures multiset(Insert(s, x, key, asc)) == multiset(s) + multiset{x}
  {
    if s != [] {
      var init, last := s[..|s| - 1], s[|s| - 1];
      assert s == init + [last];
      if Compare(last, x, key, asc) > 0 {
        InsertPermutes(init, x, key, asc);
      }
    }
  }

  /** The sort only reorders: the result holds the same rows, each as often as in `s`. */
  lemma {:induction false} SortPermutes(s: seq<Row>, key: Key, asc: bool)
    ensures multiset(InsertionSort(s, key, asc)) == multiset(s)
  {
    if s != [] {
      var init, last := s[..|s| - 1], s[|s| - 1];
      assert s == init + [last];
      SortPermutes(init, key, asc);
      InsertPermutes(InsertionSort(init, key, asc), last, key, asc);
    }
  }

  // ----- order -----------------------------------------------------------------------

  /**
   * The comparator agrees with `Before`: it keeps `a` first only where `a` may precede `b`,
   * moves it after `b` only where `b` may precede `a`, and calls two rows equal exactly
   * when both carry the same value.
   */
  lemma CompareAgreesWithBefore(a: Row, b: Row, key: Key, asc: bool)
    ensures Compare(a, b, key, asc) <= 0 ==> Before(a, b, key, asc)
    ensures Compare(a, b, key, asc) > 0 ==> Before(b, a, key, asc)
    ensures Compare(a, b, key, asc) == 0 <==> Project(a, key).Some? && Project(a, key) == Project(b, key)
  {
  }

  /**
   * The comparator is not consistent on rows without a value: each of two such rows is put
   * after the other, and such a row is even put after itself (`a == b` is allowed).
   */
  lemma CompareInconsistentOnNulls(a: Row, b: Row, key: Key, asc: bool)
    requires Project(a, key).None? && Project(b, key).None?
    ensures Compare(a, b, key, asc) > 0 && Compare(b, a, key, asc) > 0
    ensures Compare(a, a, key, asc) > 0
  {
  }

  /**
   * On rows that all carry the value the comparator is consistent in the sense of ECMA-262:
   * a row is equal to itself, swapping the arguments flips the sign, and "not after" and
   * "equal" are transitive.
   */
  lemma CompareConsistentOnValues(a: Row, b: Row, c: Row, key: Key, asc: bool)
    requires Project(a, key).Some? && Project(b, key).Some? && Project(c, key).Some?
    ensures Compare(a, a, key, asc) == 0
    ensures Compare(a, b, key, asc) > 0 <==> Compare(b, a, key, asc) < 0
    ensures Compare(a, b, key, asc) == 0 <==> Compare(b, a, key, asc) == 0
    ensures Compare(a, b, key, asc) <= 0 && Compare(b, c, key, asc) <= 0 ==> Compare(a, c, key, asc) <= 0
    ensures Compare(a, b, key, asc) == 0 && Compare(b, c, key, asc) == 0 ==> Compare(a, c, key, asc) == 0
  {
  }

  lemma BeforeTransitive(a: Row, b: Row, c: Row, key: Key, asc: bool)
    requires Before(a, b, key, asc) && Before(b, c, key, asc)
    ensures Before(a, c, key, asc)
  {
  }

  /** Appending a row that every row of an ordered sequence may precede keeps it ordered. */
  lemma OrderedSnoc(v: seq<Row>, y: Row, key: Key, asc: bool)
    requires Ordered(v, key, asc)
    requires forall e :: e in v ==> Before(e, y, key, asc)
    ensures Ordered(v + [y], key, asc)
  {
    var w := v + [y];
    forall i, j | 0 <= i < j < |w| ensures Before(w[i], w[j], key, asc) {
      if j == |v| {
        assert w[i] in v;
      } else {
        assert w[i] == v[i] && w[j] == v[j];
      }
    }
  }

  lemma {:induction false} InsertOrdered(s: seq<Row>, x: Row, key: Key, asc: bool)
    requires Ordered(s, key, asc)
    ensures Ordered(Insert(s, x, key, asc), key, asc)
  {
    if s == [] {
    } else {
      var init, last := s[..|s| - 1], s[|s| - 1];
      assert s == init + [last];
      assert Ordered(init, key, asc) by {
        forall i, j | 0 <= i < j < |init| ensures Before(init[i], init[j], key, asc) {
          assert init[i] == s[i] && init[j] == s[j];
        }
      }
      if Compare(last, x, key, asc) > 0 {
        var r := Insert(init, x, key, asc);
        CompareAgreesWithBefore(last, x, key, asc);
        InsertOrdered(init, x, key, asc);
        InsertPermutes(init, x, key, asc);
        forall e | e in r ensures Before(e, last, key, asc) {
          assert e in multiset(r);
          if e == x {
          } else {
            assert e in multiset(init);
            var i :| 0 <= i < |init| && init[i] == e;
            assert s[i] == e && s[|s| - 1] == last;
          }
        }
        OrderedSnoc(r, last, key, asc);
      } else {
        CompareAgreesWithBefore(last, x, key, asc);
        forall e | e in s ensures Before(e, x, key, asc) {
          var i :| 0 <= i < |s| && s[i] == e;
          if i < |s| - 1 {
            assert Before(s[i], s[|s| - 1], key, asc);
            BeforeTransitive(e, last, x, key, asc);
          }
        }
        OrderedSnoc(s, x, key, asc);
      }
    }
  }

  /** The insertion sort puts its result in the order `Before`. */
  lemma {:induction false} SortOrdered(s: seq<Row>, key: Key, asc: bool)
    ensures Ordered(InsertionSort(s, key, asc), key, asc)
  {
    if s != [] {
      SortOrdered(s[..|s| - 1], key, asc);
      InsertOrdered(InsertionSort(s[..|s| - 1], key, asc), s[|s| - 1], key, asc);
    }
  }

  // ----- stability -------------------------------------------------------------------

  /** The part of `Matching` a single row contributes. */
  function Single(row: Row, key: Key, x: Value): seq<Row> {
    if Project(row, key) == Some(x) then [row] else []
  }

  lemma MatchingSnoc(s: seq<Row>, y: Row, key: Key, x: Value)
    ensures Matching(s + [y], key, x) == Matching(s, key, x) + Single(y, key, x)
  {
    assert (s + [y])[..|s|] == s;
  }

  lemma {:induction false} InsertStable(s: seq<Row>, y: Row, key: Key, asc: bool, x: Value)
    ensures Matching(Insert(s, y, key, asc), key, x) == Matching(s + [y], key, x)
  {
    if s != [] {
      var init, last := s[..|s| - 1], s[|s| - 1];
      assert s == init + [last];
      if Compare(last, y, key, asc) > 0 {
        // `last` and `y` do not both carry `x`, else the comparator would answer 0
        CompareAgreesWithBefore(last, y, key, asc);
        assert Single(last, key, x) == [] || Single(y, key, x) == [];
        calc {
          Matching(Insert(s, y, key, asc), key, x);
          Matching(Insert(init, y, key, asc) + [last], key, x);
          { MatchingSnoc(Insert(init, y, key, asc), last, key, x); }
          Matching(Insert(init, y, key, asc), key, x) + Single(last, key, x);
          { InsertStable(init, y, key, asc, x); MatchingSnoc(init, y, key, x); }
          Matching(init, key, x) + Single(y, key, x) + Single(last, key, x);
          Matching(init, key, x) + Single(last, key, x) + Single(y, key, x);
          { MatchingSnoc(init, last, key, x); MatchingSnoc(s, y, key, x); }
          Matching(s + [y], key, x);
        }
      }
    }
  }

  /**
   * Stability: the rows that carry one and the same value keep their order from `s`.
   */
  lemma {:induction false} SortStable(s: seq<Row>, key: Key, asc: bool, x: Value)
    ensures Matching(InsertionSort(s, key, asc), key, x) == Matching(s, key, x)
  {
    if s != [] {
      var init, last := s[..|s| - 1], s[|s| - 1];
      assert s == init + [last];
      SortStable(init, key, asc, x);
      InsertStable(InsertionSort(init, key, asc), last, key, asc, x);
      MatchingSnoc(InsertionSort(init, key, asc), last, key, x);
      MatchingSnoc(init, last, key, x);
    }
  }

  // ----- the view --------------------------------------------------------------------

  /** Rows without a value at the sort key come after every row that has one, in both directions. */
  lemma ViewNullsLast(data: seq<Row>, sortKey: Option<Key>, asc: bool, i: nat, j: nat)
    requires Active(sortKey)
    requires i < j < |View(data, sortKey, asc)|
    requires Project(View(data, sortKey, asc)[i], sortKey.value).None?
    ensures Project(View(data, sortKey, asc)[j], sortKey.value).None?
  {
    SortOrdered(data, sortKey.value, asc);
  }

  /** Among rows with a value, the view is non-decreasing when ascending and non-increasing otherwise. */
  lemma ViewMonotone(data: seq<Row>, sortKey: Option<Key>, asc: bool, i: nat, j: nat)
    requires Active(sortKey)
    requires i < j < |View(data, sortKey, asc)|
    requires Project(View(data, sortKey, asc)[i], sortKey.value).Some?
    requires Project(View(data, sortKey, asc)[j], sortKey.value).Some?
    ensures var x, y := Project(View(data, sortKey, asc)[i], sortKey.value).value,
                        Project(View(data, sortKey, asc)[j], sortKey.value).value;
            if asc then x <= y else x >= y
  {
    SortOrdered(data, sortKey.value, asc);
  }

  /** Rows that carry the same value at the sort key appear in the view in their order in `data`. */
  lemma ViewStable(data: seq<Row>, sortKey: Option<Key>, asc: bool, x: Value)
    requires Active(sortKey)
    ensures Matching(View(data, sortKey, asc), sortKey.value, x) == Matching(data, sortKey.value, x)
  {
    SortStable(data, sortKey.value, asc, x);
  }

  /**
   * Of two rows, at least one carrying the value, the sort swaps them exactly when the
   * comparator puts the first after the second. (For two rows without the value the order
   * is the implementation's, so nothing is stated about them.)
   */
  lemma SortTwo(a: Row, b: Row, key: Key, asc: bool)
    requires Project(a, key).Some? || Project(b, key).Some?
    ensures InsertionSort([a, b], key, asc) == if Compare(a, b, key, asc) > 0 then [b, a] else [a, b]
  {
    assert [a, b][..1] == [a] && [a][..0] == [];
    calc {
      InsertionSort([a, b], key, asc);
      Insert(InsertionSort([a], key, asc), b, key, asc);
      { assert InsertionSort([a], key, asc) == Insert([], a, key, asc) == [a]; }
      Insert([a], b, key, asc);
    }
    if Compare(a, b, key, asc) > 0 {
      assert Insert([a], b, key, asc) == Insert([], b, key, asc) + [a] == [b] + [a];
    } else {
      assert Insert([a], b, key, asc) == [a] + [b];
    }
  }

  // ----- the sort on the copy ----------------------------------------------------------

  /** The position at which `Insert` puts `x`: left of the rows at the end of `s` the comparator puts after `x`. */
  function Gap(s: seq<Row>, x: Row, key: Key, asc: bool): (j: nat)
    ensures j <= |s|
  {
    if s == [] then 0
    else if Compare(s[|s| - 1], x, key, asc) > 0 then Gap(s[..|s| - 1], x, key, asc)
    else |s|
  }

  /** `Insert` leaves the rows before the gap and after it in place. */
  lemma {:induction false} InsertSplits(s: seq<Row>, x: Row, key: Key, asc: bool)
    ensures Insert(s, x, key, asc) == s[..Gap(s, x, key, asc)] + [x] + s[Gap(s, x, key, asc)..]
  {
    if s != [] {
      var init, last := s[..|s| - 1], s[|s| - 1];
      if Compare(last, x, key, asc) > 0 {
        InsertSplits(init, x, key, asc);
        var j := Gap(init, x, key, asc);
        assert init[..j] == s[..j];
        assert s[j..] == init[j..] + [last];
      } else {
        assert s[..|s|] == s && s[|s|..] == [];
      }
    }
  }

  /**
   * The inner loop of the in-place sort: shifts right, by one place, the rows at the end
   * of `a[..i]` that the comparator puts after `x`, and returns the gap it opened.
   */
  method OpenGap(a: array<Row>, i: nat, x: Row, key: Key, asc: bool) returns (j: nat)
    requires i < a.Length
    modifies a
    ensures j == Gap(old(a[..i]), x, key, asc)
    ensures forall k :: 0 <= k < j ==> a[k] == old(a[k])
    ensures forall k :: j < k <= i ==> a[k] == old(a[k - 1])
    ensures forall k :: i < k < a.Length ==> a[k] == old(a[k])
  {
    ghost var s := a[..];
    j := i;
    while j > 0 && Compare(a[j - 1], x, key, asc) > 0
      invariant 0 <= j <= i
      invariant Gap(s[..j], x, key, asc) == Gap(s[..i], x, key, asc)
      invariant forall k :: 0 <= k < j ==> a[k] == s[k]
      invariant forall k :: j < k <= i ==> a[k] == s[k - 1]
      invariant forall k :: i < k < a.Length ==> a[k] == s[k]
    {
      assert s[..j][..j - 1] == s[..j - 1];
      a[j] := a[j - 1];
      j := j - 1;
    }
    assert j > 0 ==> s[..j][j - 1] == s[j - 1];
  }

  /** One step of the in-place sort: moves `a[i]` into the sorted prefix `a[..i]`. */
  method InsertLast(a: array<Row>, i: nat, key: Key, asc: bool)
    requires i < a.Length
    modifies a
    ensures a[..i + 1] == Insert(old(a[..i]), old(a[i]), key, asc)
    ensures a[i + 1..] == old(a[i + 1..])
  {
    ghost var done := a[..i];
    var x := a[i];
    var j := OpenGap(a, i, x, key, asc);
    a[j] := x;
    ghost var r := done[..j] + [x] + done[j..];
    forall k | 0 <= k <= i ensures a[k] == r[k] {
      if k < j {
        assert r[k] == done[k];
      } else if k > j {
        assert r[k] == done[k - 1];
      }
    }
    assert a[..i + 1] == r;
    InsertSplits(done, x, key, asc);
  }

  /** Sorts the array in place, as `arr.sort(...)` does with the copy of `data`. */
  method SortInPlace(a: array<Row>, key: Key, asc: bool)
    modifies a
    ensures a[..] == InsertionSort(old(a[..]), key, asc)
  {
    ghost var input := a[..];
    var i := 0;
    while i < a.Length
      invariant 0 <= i <= a.Length
      invariant a[..i] == InsertionSort(input[..i], key, asc)
      invariant a[i..] == input[i..]
    {
      ghost var prefix := a[..i];
      assert input[..i + 1] == input[..i] + [input[i]];
      assert InsertionSort(input[..i + 1], key, asc) == Insert(prefix, input[i], key, asc);
      assert a[i + 1..] == input[i + 1..];
      InsertLast(a, i, key, asc);
      i := i + 1;
    }
    assert input[..a.Length] == input;
  }
}

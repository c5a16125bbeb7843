/**
 * The row selection of the table (src/components/DataTable/DataTable.tsx, lines 21, 47-64).
 *
 * The code keeps the selection in a JavaScript `Set<number>` of positions in the sorted
 * view. A `Set` holds each element once and iterates in insertion order, and the
 * notification `[...next].map(...)` follows that order, so the selection is modelled as a
 * sequence without repetitions, oldest insertion first.
 */
module Selection {

  /** No position occurs twice. */
  predicate Distinct(s: seq<nat>) {
    forall i, j :: 0 <= i < j < |s| ==> s[i] != s[j]
  }

  /** The positions of `s`, as a set. */
  function Elements(s: seq<nat>): set<nat> {
    set x | x in s
  }

  /** A selection for a view of `n` rows: distinct positions, each below `n`. */
  predicate ValidFor(s: seq<nat>, n: nat) {
    Distinct(s) && forall x :: x in s ==> x < n
  }

  /** `Set.prototype.delete`: `s` without `x`, the others in their order. */
  function Without(s: seq<nat>, x: nat): (r: seq<nat>)
    ensures forall y :: y in r <==> y in s && y != x
  {
    if s == [] then []
    else if s[0] == x then Without(s[1..], x)
    else [s[0]] + Without(s[1..], x)
  }

  /** The update `toggleRow` makes to its copy of the set (lines 48-50). */
  function Toggled(s: seq<nat>, i: nat): seq<nat> {
    if i in s then Without(s, i) else s + [i]
  }

  /** The positions `0 .. n-1` in order, as `sorted.map((_, i) => i)` lists them (line 60). */
  function AllIndices(n: nat): (r: seq<nat>)
    ensures |r| == n
    ensures forall k :: 0 <= k < n ==> r[k] == k
  {
    seq(n, (k: int) requires 0 <= k => k as nat)
  }

  /** The update `toggleAll` makes (lines 56-61) for a view of `n` rows. */
  function SelectAllStep(s: seq<nat>, n: nat): seq<nat> {
    if |s| == n then [] else AllIndices(n)
  }

  /** `[...next].map((i) => sorted[i])`: the rows at the selected positions, oldest first. */
  function Materialize<T>(view: seq<T>, s: seq<nat>): (rows: seq<T>)
    requires forall x :: x in s ==> x < |view|
    ensures |rows| == |s|
  {
    seq(|s|, (k: int) requires 0 <= k < |s| => assert s[k] in s; view[s[k]])
  }

  // ----- toggling one position ---------------------------------------------------------

  lemma {:induction false} WithoutDistinct(s: seq<nat>, x: nat)
    requires Distinct(s)
    ensures Distinct(Without(s, x))
  {
    if s != [] {
      assert Distinct(s[1..]) by {
        forall i, j | 0 <= i < j < |s[1..]| ensures s[1..][i] != s[1..][j] {
          assert s[1..][i] == s[i + 1] && s[1..][j] == s[j + 1];
        }
      }
      WithoutDistinct(s[1..], x);
      if s[0] != x {
        var r := Without(s[1..], x);
        assert s[0] !in s[1..] by {
          forall j | 0 <= j < |s[1..]| ensures s[1..][j] != s[0] {
            assert s[1..][j] == s[j + 1];
          }
        }
        assert s[0] !in r;
        var w := [s[0]] + r;
        forall i, j | 0 <= i < j < |w| ensures w[i] != w[j] {
          if i == 0 {
            assert w[j] == r[j - 1];
          } else {
            assert w[i] == r[i - 1] && w[j] == r[j - 1];
          }
        }
      }
    }
  }

  lemma {:induction false} WithoutSnoc(s: seq<nat>, x: nat)
    requires x !in s
    ensures Without(s + [x], x) == s
  {
    if s == [] {
      assert [] + [x] == [x];
      assert [x][1..] == [];
    } else {
      assert (s + [x])[1..] == s[1..] + [x];
      WithoutSnoc(s[1..], x);
      assert s == [s[0]] + s[1..];
    }
  }

  /** Deleting a position that is not in the set changes nothing. */
  lemma {:induction false} WithoutAbsent(s: seq<nat>, x: nat)
    requires x !in s
    ensures Without(s, x) == s
  {
    if s != [] {
      WithoutAbsent(s[1..], x);
      assert s == [s[0]] + s[1..];
    }
  }

  /**
   * `Set.prototype.delete` keeps the insertion order: deleting the one occurrence of `x`
   * leaves the positions before it and after it in their order.
   */
  lemma {:induction false} WithoutKeepsOrder(p: seq<nat>, x: nat, q: seq<nat>)
    requires x !in p && x !in q
    ensures Without(p + [x] + q, x) == p + q
  {
    if p == [] {
      assert p + [x] + q == [x] + q;
      assert ([x] + q)[1..] == q;
      WithoutAbsent(q, x);
    } else {
      assert (p + [x] + q)[0] == p[0];
      assert (p + [x] + q)[1..] == p[1..] + [x] + q;
      WithoutKeepsOrder(p[1..], x, q);
      assert p + q == [p[0]] + (p[1..] + q);
    }
  }

  /**
   * `toggleRow(i)` flips the membership of `i` and of nothing else, and keeps the
   * selection valid.
   */
  lemma ToggledFlipsOnlyI(s: seq<nat>, n: nat, i: nat)
    requires ValidFor(s, n) && i < n
    ensures ValidFor(Toggled(s, i), n)
    ensures i in Toggled(s, i) <==> i !in s
    ensures forall j :: j != i ==> (j in Toggled(s, i) <==> j in s)
  {
    if i in s {
      WithoutDistinct(s, i);
    } else {
      var t := s + [i];
      forall a, b | 0 <= a < b < |t| ensures t[a] != t[b] {
        if b == |s| {
          assert t[a] == s[a];
        } else {
          assert t[a] == s[a] && t[b] == s[b];
        }
      }
    }
  }

  /**
   * Toggling a position twice restores the set of selected positions. When the position
   * was not selected it restores the selection exactly; when it was, the position comes
   * back at the end of the insertion order.
   */
  lemma ToggleTwice(s: seq<nat>, i: nat)
    requires Distinct(s)
    ensures Toggled(Toggled(s, i), i) == if i in s then Without(s, i) + [i] else s
    ensures Elements(Toggled(Toggled(s, i), i)) == Elements(s)
  {
    if i !in s {
      WithoutSnoc(s, i);
    }
  }

  // ----- counting selected positions ---------------------------------------------------

  /** A `Set`'s `size` is the length of its insertion-ordered listing. */
  lemma {:induction false} DistinctSize(s: seq<nat>)
    requires Distinct(s)
    ensures |Elements(s)| == |s|
  {
    if s != [] {
      var t := s[..|s| - 1];
      assert Distinct(t) by {
        forall i, j | 0 <= i < j < |t| ensures t[i] != t[j] {
          assert t[i] == s[i] && t[j] == s[j];
        }
      }
      DistinctSize(t);
      assert s == t + [s[|s| - 1]];
      assert Elements(s) == Elements(t) + {s[|s| - 1]};
      assert s[|s| - 1] !in Elements(t) by {
        forall j | 0 <= j < |t| ensures t[j] != s[|s| - 1] {
          assert t[j] == s[j];
        }
      }
    }
  }

  /** The set `{0, .., n-1}` has `n` elements. */
  lemma AllIndicesSize(n: nat)
    ensures Distinct(AllIndices(n))
    ensures |Elements(AllIndices(n))| == n
    ensures forall j :: j in Elements(AllIndices(n)) <==> 0 <= j < n
    ensures forall j :: 0 <= j < n ==> j in AllIndices(n)
  {
    var all := AllIndices(n);
    forall j | 0 <= j < n ensures j in all {
      assert all[j] == j;
    }
    DistinctSize(all);
  }

  /**
   * The header checkbox test `selected.size === sorted.length` (lines 56, 90) holds exactly
   * when every row of the view is selected.
   */
  lemma AllSelectedIffFull(s: seq<nat>, n: nat)
    requires ValidFor(s, n)
    ensures |s| == n <==> forall j :: 0 <= j < n ==> j in s
  {
    var below := Elements(AllIndices(n));
    DistinctSize(s);
    AllIndicesSize(n);
    assert Elements(s) <= below;
    if |s| == n {
      assert |below - Elements(s)| == 0;
      forall j | 0 <= j < n ensures j in s {
        assert j in below;
        assert j !in below - Elements(s);
      }
    }
    if forall j :: 0 <= j < n ==> j in s {
      assert below <= Elements(s);
      assert Elements(s) == below;
    }
  }

  // ----- select all ---------------------------------------------------------------------

  /**
   * `toggleAll` clears a selection that holds every row and otherwise selects every row;
   * either way the selection stays valid.
   */
  lemma SelectAllStepMeaning(s: seq<nat>, n: nat)
    requires ValidFor(s, n)
    ensures ValidFor(SelectAllStep(s, n), n)
    ensures (forall j :: 0 <= j < n ==> j in s) ==> SelectAllStep(s, n) == []
    ensures !(forall j :: 0 <= j < n ==> j in s) ==>
              forall j :: 0 <= j < n ==> j in SelectAllStep(s, n)
  {
    AllSelectedIffFull(s, n);
    AllIndicesSize(n);
  }

  /**
   * On a non-empty view, `toggleAll` flips the header checkbox; in particular selecting all
   * from nothing and then toggling again gives the empty selection back.
   */
  lemma SelectAllFlipsHeader(s: seq<nat>, n: nat)
    requires ValidFor(s, n) && n > 0
    ensures (|SelectAllStep(s, n)| == n) <==> |s| != n
    ensures SelectAllStep(SelectAllStep([], n), n) == []
  {
  }

  // ----- the notification ---------------------------------------------------------------

  /**
   * The rows handed to `onRowSelect` after `toggleRow` are the rows at the selected
   * positions: one per selected position, so as many as the set's size.
   */
  lemma PayloadMatchesSelection<T>(view: seq<T>, s: seq<nat>)
    requires ValidFor(s, |view|)
    ensures |Materialize(view, s)| == |Elements(s)|
    ensures forall k :: 0 <= k < |s| ==> s[k] < |view| && Materialize(view, s)[k] == view[s[k]]
    ensures forall x :: x in s ==> view[x] in Materialize(view, s)
  {
    DistinctSize(s);
    forall k | 0 <= k < |s| ensures s[k] < |view| && Materialize(view, s)[k] == view[s[k]] {
      assert s[k] in s;
    }
    forall x | x in s ensures view[x] in Materialize(view, s) {
      var k :| 0 <= k < |s| && s[k] == x;
      assert Materialize(view, s)[k] == view[x];
    }
  }

  /**
   * The payload `toggleAll` sends when it selects everything, the whole view, is the one
   * `toggleRow` would send for that selection.
   */
  lemma MaterializeAll<T>(view: seq<T>)
    ensures Materialize(view, AllIndices(|view|)) == view
  {
  }
}

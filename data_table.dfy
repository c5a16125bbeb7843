/**
 * The table component (src/components/DataTable/DataTable.tsx): its sort state, the
 * sorted view it derives, its row selection and the choice of what it shows.
 *
 * Each event handler is one atomic transition of a `Table` object; the rows, the columns
 * and the `loading`/`selectable` flags are the component's props and stay fixed for the
 * life of the object. The callback `onRowSelect` is the payload each selection handler
 * returns; when the caller gave no callback the payload is simply dropped.
 */
module DataTable {
  import opened Wrappers
  import opened TableTypes
  import opened TableSort
  import opened Selection

  /** The pair `(sortKey, sortAsc)` (lines 19-20). */
  datatype SortState = SortState(key: Option<Key>, asc: bool)

  /** `handleSort(col)` (lines 23-31) as a transition of the sort state. */
  function NextSort(st: SortState, col: Column): SortState {
    if !col.sortable then st
    else if st.key == Some(col.dataIndex) then SortState(st.key, !st.asc)
    else SortState(Some(col.dataIndex), true)
  }

  /** The sort state after `n` clicks on the header of `col`. */
  function Clicks(st: SortState, col: Column, n: nat): SortState {
    if n == 0 then st else NextSort(Clicks(st, col, n - 1), col)
  }

  /** The active sort key, when there is one, is the `dataIndex` of a sortable column. */
  predicate KeyFromSortableColumn(key: Option<Key>, columns: seq<Column>) {
    key.Some? ==> exists c :: c in columns && c.sortable && c.dataIndex == key.value
  }

  /** What the component renders (lines 66-80). */
  datatype Screen = LoadingStatus | EmptyMessage | Grid

  /** The view choice: `loading` is tested before the rows, the rows before the table. */
  function ScreenFor(loading: bool, data: seq<Row>): (s: Screen)
    ensures loading ==> s == LoadingStatus
    ensures s == EmptyMessage <==> !loading && |data| == 0
    ensures s == Grid <==> !loading && |data| > 0
  {
    if loading then LoadingStatus
    else if |data| == 0 then EmptyMessage
    else Grid
  }

  /**
   * The arrow in a column header (lines 107-108): `Some(true)` for ▲, `Some(false)` for ▼,
   * `None` for no arrow.
   */
  function SortIndicator(col: Column, st: SortState): Option<bool> {
    if col.sortable && st.key == Some(col.dataIndex) then Some(st.asc) else None
  }

  // ----- the sort state ----------------------------------------------------------------

  /**
   * A column that is not sortable leaves the sort state alone; a sortable one becomes the
   * sort key, and the direction flips when it already was the key and is ascending
   * otherwise.
   */
  lemma NextSortMeaning(st: SortState, col: Column)
    ensures !col.sortable ==> NextSort(st, col) == st
    ensures col.sortable ==> NextSort(st, col).key == Some(col.dataIndex)
    ensures col.sortable && st.key == Some(col.dataIndex) ==> NextSort(st, col).asc == !st.asc
    ensures col.sortable && st.key != Some(col.dataIndex) ==> NextSort(st, col).asc
  {
  }

  /**
   * Clicking the header of a sortable column that is not the sort key, over and over,
   * sorts by it ascending, then descending, then ascending, and so on.
   */
  lemma {:induction false} RepeatedSortAlternates(st: SortState, col: Column, n: nat)
    requires col.sortable && st.key != Some(col.dataIndex) && n > 0
    ensures Clicks(st, col, n) == SortState(Some(col.dataIndex), n % 2 == 1)
  {
    if n > 1 {
      RepeatedSortAlternates(st, col, n - 1);
    }
  }

  /** Two clicks on the header of the column already sorted by give the same sort state back. */
  lemma SortTwiceRestores(st: SortState, col: Column)
    requires col.sortable && st.key == Some(col.dataIndex)
    ensures NextSort(NextSort(st, col), col) == st
  {
  }

  /** After a click on a sortable header, that header shows the arrow of the new direction. */
  lemma IndicatorFollowsSort(st: SortState, col: Column)
    requires col.sortable
    ensures SortIndicator(col, NextSort(st, col)) == Some(NextSort(st, col).asc)
  {
  }

  /** `handleSort` only ever takes its key from a sortable column. */
  lemma NextSortKeepsKeyFromSortableColumn(st: SortState, col: Column, columns: seq<Column>)
    requires KeyFromSortableColumn(st.key, columns) && col in columns
    ensures KeyFromSortableColumn(NextSort(st, col).key, columns)
  {
  }

  // ----- the component ------------------------------------------------------------------

  class Table {
    const data: seq<Row>
    const columns: seq<Column>
    const loading: bool
    const selectable: bool

    var sortKey: Option<Key>
    var sortAsc: bool
    var selected: seq<nat>

    /** The selection fits the view and the sort key comes from a sortable column. */
    ghost predicate Valid()
      reads this
    {
      ValidFor(selected, |data|) && KeyFromSortableColumn(sortKey, columns)
    }

    /** The `sorted` memo for the current state. */
    function Sorted(): seq<Row>
      reads this
    {
      View(data, sortKey, sortAsc)
    }

    /** The header checkbox (line 90). */
    predicate HeaderChecked()
      reads this
    {
      |selected| == |Sorted()|
    }

    /** The first render: no sort key, ascending, nothing selected (lines 19-21). */
    constructor (data: seq<Row>, columns: seq<Column>, loading: bool, selectable: bool)
      ensures Valid()
      ensures this.data == data && this.columns == columns
      ensures this.loading == loading && this.selectable == selectable
      ensures sortKey == None && sortAsc && selected == []
    {
      this.data := data;
      this.columns := columns;
      this.loading := loading;
      this.selectable := selectable;
      sortKey := None;
      sortAsc := true;
      selected := [];
    }

    /** `handleSort(col)` (lines 23-31); the selection is left as it is. */
    method HandleSort(col: Column)
      requires Valid() && col in columns
      modifies this`sortKey, this`sortAsc
      ensures Valid()
      ensures SortState(sortKey, sortAsc) == NextSort(old(SortState(sortKey, sortAsc)), col)
      ensures selected == old(selected)
    {
      if !col.sortable {
        return;
      }
      var key := col.dataIndex;
      if sortKey == Some(key) {
        sortAsc := !sortAsc;
      } else {
        sortKey := Some(key);
        sortAsc := true;
      }
    }

    /**
     * The `sorted` memo (lines 33-45): `data` itself when there is no sort key, else a copy
     * of `data` sorted in place; `data` is not touched.
     */
    method SortedView() returns (view: seq<Row>)
      ensures view == Sorted()
    {
      if !Active(sortKey) {
        return data;
      }
      var arr := new Row[|data|](i requires 0 <= i < |data| => data[i]);
      assert arr[..] == data;
      SortInPlace(arr, sortKey.value, sortAsc);
      view := arr[..];
    }

    /**
     * `toggleRow(index)` (lines 47-53): flips `index` in the selection and notifies the rows
     * of the sorted view at the selected positions.
     */
    method ToggleRow(index: nat) returns (payload: seq<Row>)
      requires Valid() && index < |data|
      modifies this`selected
      ensures Valid()
      ensures selected == Toggled(old(selected), index)
      ensures payload == Materialize(Sorted(), selected)
    {
      var view := SortedView();
      var next := selected;
      if index in next {
        next := Without(next, index);
      } else {
        next := next + [index];
      }
      ToggledFlipsOnlyI(selected, |data|, index);
      selected := next;
      payload := Materialize(view, next);
    }

    /**
     * `toggleAll` (lines 55-64): clears a selection whose size is the length of the view and
     * notifies `[]`; otherwise selects every position and notifies the whole view.
     */
    method ToggleAll() returns (payload: seq<Row>)
      requires Valid()
      modifies this`selected
      ensures Valid()
      ensures selected == SelectAllStep(old(selected), |data|)
      ensures old(HeaderChecked()) ==> payload == []
      ensures !old(HeaderChecked()) ==> payload == Sorted()
      ensures payload == Materialize(Sorted(), selected)
    {
      var view := SortedView();
      SelectAllStepMeaning(selected, |data|);
      if |selected| == |view| {
        selected := [];
        payload := [];
      } else {
        selected := AllIndices(|view|);
        payload := view;
        MaterializeAll(view);
      }
    }
  }

  // ----- scenarios ------------------------------------------------------------------------

  /** Clicking the first row's checkbox notifies that row (DataTable.test.tsx, lines 21-27). */
  method SelectRowScenario() {
    var one: Row := map["a" := Some(1), "b" := Some(10)];
    var two: Row := map["a" := Some(2), "b" := Some(20)];
    var columns := [Column("a", "A", "a", true), Column("b", "B", "b", false)];
    var table := new Table([one, two], columns, false, true);
    assert ScreenFor(table.loading, table.data) == Grid;
    var payload := table.ToggleRow(0);
    assert payload == [one];
    assert table.selected == [0];
    assert [0][1..] == [];
    assert Without([0], 0) == [];
    payload := table.ToggleRow(0);
    assert payload == [] && table.selected == [];
  }

  /**
   * Two clicks on a sortable header sort ascending, then descending; the selection keeps
   * its positions, so after the sort the selected position holds another row.
   */
  method SortScenario() {
    var two: Row := map["a" := Some(2)];
    var one: Row := map["a" := Some(1)];
    var colA := Column("a", "A", "a", true);
    var table := new Table([two, one], [colA], false, true);
    var payload := table.ToggleRow(0);
    assert payload == [two];
    table.HandleSort(colA);
    assert table.sortKey == Some("a") && table.sortAsc;
    assert table.selected == [0];
    var view := table.SortedView();
    SortTwo(two, one, "a", true);
    assert view == [one, two];
    table.HandleSort(colA);
    assert !table.sortAsc;
    view := table.SortedView();
    SortTwo(two, one, "a", false);
    assert view == [two, one];
  }
}

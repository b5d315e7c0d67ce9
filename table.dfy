/**
 * The self-sorting table (Table.tsx). It keeps the sort state (`sortColumn`,
 * `sortDirection`), stores whatever sort request its controlled table
 * reports, and hands the controlled table a sorted copy of its rows together
 * with the current sort state.
 *
 * React state is modelled as the two fields of `Table`; `OnSort` is the
 * `onSort` callback, which overwrites both. The derived values are
 * functions of the state (`PassedSortColumn`, `SortedView`), and the copy and
 * sort of `sortedRows` is the method `SortedRows`.
 */
module Table {
  import opened Wrappers
  import opened ControlledTable
  import opened Values
  import opened TableSort
  import opened JsStrings
  import ArraySort

  /** `if (sortColumn)`: null and the empty string are falsy. */
  predicate IsActive(sortColumn: Option<string>)
  {
    sortColumn.Some? && sortColumn.value != ""
  }

  /**
   * The `sortColumn` prop handed to the controlled table: undefined exactly
   * when no column is active, otherwise the state's name and direction.
   */
  function PassedSortColumn(sortColumn: Option<string>, sortDirection: Direction): (p: Option<SortProps>)
    ensures p.Some? <==> IsActive(sortColumn)
    ensures p.Some? ==> p.value.name == sortColumn.value && p.value.direction == sortDirection
  {
    if IsActive(sortColumn) then Some(SortProps(sortColumn.value, sortDirection)) else None
  }

  /**
   * `sortedRows`: the rows themselves when no column is active, otherwise a
   * copy sorted by the active column in the current direction.
   */
  function SortedView(rows: seq<Row>, sortColumn: Option<string>, sortDirection: Direction): (r: seq<Row>)
    ensures !IsActive(sortColumn) ==> r == rows
    ensures IsActive(sortColumn) ==> r == SortRows(rows, sortColumn.value, sortDirection)
  {
    if IsActive(sortColumn) then SortRows(rows, sortColumn.value, sortDirection) else rows
  }

  class Table {
    var sortColumn: Option<string>
    var sortDirection: Direction

    /** Initially no column is active and the direction is ascending. */
    constructor ()
      ensures sortColumn == None && sortDirection == Asc
      ensures !IsActive(sortColumn)
    {
      sortColumn := None;
      sortDirection := Asc;
    }

    /** The `sortColumn` prop this table currently passes down. */
    function SortState(): (p: Option<SortProps>)
      reads this
      ensures p.Some? <==> sortColumn.Some? && sortColumn.value != ""
      ensures p.Some? ==> p.value == SortProps(sortColumn.value, sortDirection)
    {
      PassedSortColumn(sortColumn, sortDirection)
    }

    /** The `onSort` callback: store the reported name and direction. */
    method OnSort(request: SortProps)
      modifies this
      ensures sortColumn == Some(request.name) && sortDirection == request.direction
    {
      sortColumn := Some(request.name);
      sortDirection := request.direction;
    }

    /**
     * A click on the header of `column` in the rendered table. The table
     * always supplies `onSort`, so a sortable column reports the toggled
     * request for the sort state passed down, and the table stores it; a
     * column that is not sortable reports nothing and the state is unchanged.
     */
    method ClickHeader(column: Column)
      modifies this
      ensures column.sortable ==>
        sortColumn == Some(column.key) &&
        sortDirection == ToggleSort(old(PassedSortColumn(sortColumn, sortDirection)), column.key).direction
      ensures !column.sortable ==> sortColumn == old(sortColumn) && sortDirection == old(sortDirection)
    {
      var request := HeaderClick(column, true, SortState());
      if request.Some? {
        OnSort(request.value);
      }
    }

    /**
     * `sortedRows`: when a column is active, copy the rows into a fresh array
     * (`[...rows]`) and sort the copy; otherwise return the rows as given.
     */
    method SortedRows(rows: seq<Row>) returns (r: seq<Row>)
      ensures r == SortedView(rows, sortColumn, sortDirection)
    {
      if !IsActive(sortColumn) {
        return rows;
      }
      var copy := new Row[|rows|](i requires 0 <= i < |rows| => rows[i]);
      assert copy[..] == rows;
      ArraySort.SortInPlace(copy, Comparator(sortColumn.value, sortDirection));
      r := copy[..];
    }
  }

  /**
   * After `onSort` stores a request for a column with a non-empty key, the
   * table passes that same request back down, so the next click on that
   * column toggles it.
   */
  lemma StoredRequestIsPassedDown(request: SortProps)
    requires request.name != ""
    ensures PassedSortColumn(Some(request.name), request.direction) == Some(request)
  {
  }

  /**
   * Clicks on one sortable column with a non-empty key, starting from any
   * state, leave the table sorting by that column, alternating ascending and
   * descending: the state after `n` clicks is what the controlled table's
   * own fold of `n` clicks gives.
   */
  lemma {:induction false} TableClicksAlternate(sortColumn: Option<string>, sortDirection: Direction, key: string, n: nat)
    requires key != "" && n >= 1
    ensures var s := ClickTimes(PassedSortColumn(sortColumn, sortDirection), key, n).value;
            TableAfterClicks(sortColumn, sortDirection, key, n) == (Some(key), s.direction)
  {
    if n > 1 {
      TableClicksAlternate(sortColumn, sortDirection, key, n - 1);
      var prev := ClickTimes(PassedSortColumn(sortColumn, sortDirection), key, n - 1).value;
      StoredRequestIsPassedDown(prev);
    }
  }

  /** The state `(sortColumn, sortDirection)` after `n` clicks on a sortable column with key `key`. */
  function TableAfterClicks(sortColumn: Option<string>, sortDirection: Direction, key: string, n: nat): (Option<string>, Direction)
  {
    if n == 0 then (sortColumn, sortDirection)
    else
      var (c, d) := TableAfterClicks(sortColumn, sortDirection, key, n - 1);
      (Some(key), ToggleSort(PassedSortColumn(c, d), key).direction)
  }

  /**
   * A column whose key is the empty string never becomes active: after a
   * click the state holds "", which is falsy, so the controlled table is told
   * nothing is sorted and every further click asks for ascending again; the
   * rows stay in input order.
   */
  lemma EmptyKeyNeverSorts(sortDirection: Direction, rows: seq<Row>)
    ensures PassedSortColumn(Some(""), sortDirection) == None
    ensures ToggleSort(PassedSortColumn(Some(""), sortDirection), "") == SortProps("", Asc)
    ensures SortedView(rows, Some(""), sortDirection) == rows
  {
  }

  /** The view is a permutation of the rows, whatever the state. */
  lemma SortedViewPermutes(rows: seq<Row>, sortColumn: Option<string>, sortDirection: Direction)
    ensures multiset(SortedView(rows, sortColumn, sortDirection)) == multiset(rows)
  {
    if IsActive(sortColumn) {
      SortRowsPermutes(rows, sortColumn.value, sortDirection);
    }
  }

  /** Two rows the comparator puts the other way round come out swapped. */
  lemma SortSwapsTwo(x: Row, y: Row, cmp: (Row, Row) -> int)
    requires cmp(x, y) > 0
    ensures ArraySort.SortBy([x, y], cmp) == [y, x]
  {
    assert [x, y][..1] == [x] && [x][..0] == [];
    assert ArraySort.SortBy([x], cmp) == [x];
    assert ArraySort.Insert([x], y, cmp) == ArraySort.Insert([], y, cmp) + [x];
  }

  /** A name starting with U+9752 compares after one starting with U+7DD1. */
  lemma BlueComparesAfterGreen(blue: Row, green: Row, r1: JsString, r2: JsString)
    requires blue.fields == map["name" := Str([0x9752] + r1)]
    requires green.fields == map["name" := Str([0x7DD1] + r2)]
    ensures Compare(blue, green, "name", Asc) == 1
  {
    var b, g := [0x9752] + r1, [0x7DD1] + r2;
    assert Field(blue, "name") == Str(b) && Field(green, "name") == Str(g);
    assert b[0] == 0x9752 && g[0] == 0x7DD1;
    assert Less(g, b);
    LessAsymmetric(g, b);
  }

  /**
   * The table takes no locale: strings are ordered by code unit. A name
   * starting with 緑 (green, U+7DD1) therefore sorts ascending before one
   * starting with 青 (blue, U+9752), whatever follows and whatever locale
   * the caller has in mind.
   */
  lemma GreenBeforeBlueAscending(r1: JsString, r2: JsString)
    ensures var blue := Row(IdNum(1), map["name" := Str([0x9752] + r1)]);
            var green := Row(IdNum(2), map["name" := Str([0x7DD1] + r2)]);
            SortedView([blue, green], Some("name"), Asc) == [green, blue]
  {
    var blue := Row(IdNum(1), map["name" := Str([0x9752] + r1)]);
    var green := Row(IdNum(2), map["name" := Str([0x7DD1] + r2)]);
    BlueComparesAfterGreen(blue, green, r1, r2);
    SortSwapsTwo(blue, green, Comparator("name", Asc));
  }

  /**
   * A click on the unit tests' "Name" column (no `sortable` flag) on a fresh
   * table reports nothing, so the state stays inactive and the rows are
   * handed down in their input order.
   */
  lemma TestClickLeavesRowsUnsorted(rows: seq<Row>)
    ensures HeaderClick(Column("Name", "name", false), true, PassedSortColumn(None, Asc)) == None
    ensures SortedView(rows, None, Asc) == rows
  {
  }
}

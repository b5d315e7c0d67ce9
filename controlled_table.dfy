/**
 * The controlled table (ControlledTable.tsx): a table that owns no state.
 * It draws one header per column, one body row per input row, and optional
 * pagination controls, and reports header clicks and page clicks to its
 * owner through `onSort` and `onPageChange`. It never reorders rows.
 *
 * Callbacks are modelled by whether they are supplied (`hasOnSort`,
 * `hasOnPageChange`) and by the value they would be called with.
 */
module ControlledTable {
  import opened Wrappers
  import opened JsStrings
  import opened Values

  datatype Direction = Asc | Desc

  /** The `{ name, direction }` object of the sort callback and of the `sortColumn` prop. */
  datatype SortProps = SortProps(name: string, direction: Direction)

  /** A column descriptor; an absent `sortable` flag reads as false. */
  datatype Column = Column(name: string, key: string, sortable: bool)

  /** The mandatory `id` of a row: a number or a string. */
  datatype RowId = IdNum(n: int) | IdStr(s: JsString)

  /** A row: its `id` and its other fields. */
  datatype Row = Row(id: RowId, fields: map<string, Value>)

  // ---------------------------------------------------------------------------
  // Column headers
  // ---------------------------------------------------------------------------

  /**
   * The sort request a click on the header of column `key` emits, given the
   * current sort: descending exactly when `key` is already the ascending sort
   * column, ascending in every other state.
   */
  function ToggleSort(sortColumn: Option<SortProps>, key: string): (r: SortProps)
    ensures r.name == key
    ensures r.direction == Desc <==> sortColumn == Some(SortProps(key, Asc))
    ensures sortColumn.Some? && sortColumn.value.name != key ==> r.direction == Asc
  {
    var direction :=
      if sortColumn.Some? && sortColumn.value.name == key && sortColumn.value.direction == Asc
      then Desc else Asc;
    SortProps(key, direction)
  }

  /**
   * The sort state after `n` clicks on the header of column `key`, when the
   * owner stores every emitted request and passes it back as `sortColumn`.
   */
  function ClickTimes(sortColumn: Option<SortProps>, key: string, n: nat): Option<SortProps>
  {
    if n == 0 then sortColumn else Some(ToggleSort(ClickTimes(sortColumn, key, n - 1), key))
  }

  /**
   * Repeated clicks on one header alternate between ascending and descending
   * and never return to "unsorted"; the first click is ascending unless that
   * column was already the ascending sort column.
   */
  lemma {:induction false} RepeatedClicksAlternate(sortColumn: Option<SortProps>, key: string, n: nat)
    requires n >= 1
    ensures var startsAsc := sortColumn == Some(SortProps(key, Asc));
            ClickTimes(sortColumn, key, n) ==
              Some(SortProps(key, if (n % 2 == 1) != startsAsc then Asc else Desc))
  {
    if n > 1 {
      RepeatedClicksAlternate(sortColumn, key, n - 1);
    }
  }

  datatype Indicator = ChevronUp | ChevronDown | Spacer

  /** A header cell: a plain label, or a clickable label followed by a sort icon or an 8px spacer. */
  datatype Header = Label(text: string) | Sorter(text: string, indicator: Indicator)

  /**
   * The header of `column`. It is clickable only when a sort callback is
   * supplied and the column is sortable. The icon appears only on the column
   * whose key is the current sort name, and only when the column has a
   * non-empty display name: chevron-up for descending, chevron-down otherwise.
   */
  function HeaderFor(column: Column, hasOnSort: bool, sortColumn: Option<SortProps>): (h: Header)
    ensures h.text == column.name
    ensures h.Sorter? <==> hasOnSort && column.sortable
    ensures h.Sorter? ==>
      (h.indicator != Spacer <==> column.name != "" && sortColumn.Some? && sortColumn.value.name == column.key)
    ensures h.Sorter? && h.indicator != Spacer ==>
      (h.indicator == ChevronUp <==> sortColumn.value.direction == Desc)
  {
    if hasOnSort && column.sortable then
      var indicator :=
        if column.name != "" && sortColumn.Some? && sortColumn.value.name == column.key then
          (if sortColumn.value.direction == Desc then ChevronUp else ChevronDown)
        else Spacer;
      Sorter(column.name, indicator)
    else
      Label(column.name)
  }

  /** What a click on the header of `column` reports to the owner, if anything. */
  function HeaderClick(column: Column, hasOnSort: bool, sortColumn: Option<SortProps>): (e: Option<SortProps>)
    ensures e.Some? <==> HeaderFor(column, hasOnSort, sortColumn).Sorter?
    ensures e.Some? ==> e.value == ToggleSort(sortColumn, column.key)
  {
    if hasOnSort && column.sortable then Some(ToggleSort(sortColumn, column.key)) else None
  }

  // ---------------------------------------------------------------------------
  // Body rows
  // ---------------------------------------------------------------------------

  /** The render key of a body row: `String(row.id)`, or the position when that string is empty. */
  datatype RenderKey = ById(id: RowId) | ByIndex(index: nat)

  datatype BodyRow = BodyRow(key: RenderKey, row: Row)

  /** `String(id)` is empty only for the empty string id; a number always prints some digits. */
  predicate IdStringEmpty(id: RowId)
  {
    id == IdStr([])
  }

  /** One body row per input row, in input order, each handed to the row renderer once. */
  function Body(rows: seq<Row>): (body: seq<BodyRow>)
    ensures |body| == |rows|
    ensures forall i | 0 <= i < |rows| :: body[i].row == rows[i]
    ensures forall i | 0 <= i < |rows| ::
      (body[i].key == ByIndex(i) <==> IdStringEmpty(rows[i].id)) &&
      (!IdStringEmpty(rows[i].id) ==> body[i].key == ById(rows[i].id))
  {
    seq(|rows|, i requires 0 <= i < |rows| =>
      BodyRow(if IdStringEmpty(rows[i].id) then ByIndex(i) else ById(rows[i].id), rows[i]))
  }

  // ---------------------------------------------------------------------------
  // Pagination
  // ---------------------------------------------------------------------------

  const PAGE_SIZE: nat := 3

  /** The props handed to the pagination controls. */
  datatype Pager = Pager(page: int, pageSize: nat, total: Option<int>, itemsLength: nat)

  /** The page "next" reports. */
  function NextPage(pager: Pager): int
  {
    pager.page + 1
  }

  /** The page "previous" reports. */
  function PreviousPage(pager: Pager): int
  {
    pager.page - 1
  }

  // ---------------------------------------------------------------------------
  // The whole table
  // ---------------------------------------------------------------------------

  datatype Props = Props(
    columns: seq<Column>,
    rows: seq<Row>,
    sortColumn: Option<SortProps>,
    hasOnSort: bool,
    page: Option<int>,
    hasOnPageChange: bool,
    totalItems: Option<int>)

  datatype View = View(headers: seq<Header>, body: seq<BodyRow>, pager: Option<Pager>)

  /**
   * The rendered table: headers column by column, the body exactly as given,
   * and pagination controls (page size 3) exactly when a page callback and a
   * page are both supplied.
   */
  function Render(p: Props): (v: View)
    ensures |v.headers| == |p.columns|
    ensures forall i | 0 <= i < |p.columns| :: v.headers[i] == HeaderFor(p.columns[i], p.hasOnSort, p.sortColumn)
    ensures |v.body| == |p.rows| && forall i | 0 <= i < |p.rows| :: v.body[i].row == p.rows[i]
    ensures v.pager.Some? <==> p.hasOnPageChange && p.page.Some?
    ensures v.pager.Some? ==>
      v.pager.value.page == p.page.value && v.pager.value.pageSize == PAGE_SIZE &&
      v.pager.value.itemsLength == |p.rows| && v.pager.value.total == p.totalItems
  {
    var headers := seq(|p.columns|, i requires 0 <= i < |p.columns| =>
      HeaderFor(p.columns[i], p.hasOnSort, p.sortColumn));
    var pager :=
      if p.hasOnPageChange && p.page.Some? then Some(Pager(p.page.value, PAGE_SIZE, p.totalItems, |p.rows|))
      else None;
    View(headers, Body(p.rows), pager)
  }

  /** Column keys are unique within a table. */
  predicate UniqueKeys(columns: seq<Column>)
  {
    forall i, j | 0 <= i < j < |columns| :: columns[i].key != columns[j].key
  }

  /** With unique column keys, at most one header shows a sort icon. */
  lemma AtMostOneIndicator(p: Props, i: int, j: int)
    requires UniqueKeys(p.columns)
    requires 0 <= i < |p.columns| && 0 <= j < |p.columns|
    requires Render(p).headers[i].Sorter? && Render(p).headers[i].indicator != Spacer
    requires Render(p).headers[j].Sorter? && Render(p).headers[j].indicator != Spacer
    ensures i == j
  {
  }

  /**
   * The body does not depend on the sort state, the page or the callbacks:
   * two tables given the same rows render the same body.
   */
  lemma {:induction false} RenderNeverReorders(p: Props, q: Props)
    requires p.rows == q.rows
    ensures Render(p).body == Render(q).body
  {
  }

  /**
   * "Next" reports the page after the current one and "previous" the page
   * before it; so next then previous returns the owner to where it started.
   */
  lemma PageClicks(p: Props)
    requires Render(p).pager.Some?
    ensures NextPage(Render(p).pager.value) == p.page.value + 1
    ensures PreviousPage(Render(p).pager.value) == p.page.value - 1
    ensures var q := p.(page := Some(NextPage(Render(p).pager.value)));
            Render(q).pager.Some? && PreviousPage(Render(q).pager.value) == p.page.value
  {
  }

  /**
   * The columns of the sortable-table unit tests carry no `sortable` flag, so
   * even with a sort callback their headers render as plain labels and a
   * click on "Name" emits nothing.
   */
  lemma TestColumnsAreNotClickable(sortColumn: Option<SortProps>)
    ensures HeaderFor(Column("Name", "name", false), true, sortColumn) == Label("Name")
    ensures HeaderClick(Column("Name", "name", false), true, sortColumn) == None
  {
  }
}

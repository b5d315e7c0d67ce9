/**
 * The sorted view of the self-sorting table (Table.tsx): a copy of the rows
 * sorted with a comparator that only orders strings and numbers. The lemmas
 * say what the view is for every input: a permutation of the rows, stable
 * for rows with equal values, ordered when the column holds only strings or
 * only numbers, and the input order when nothing in the column is a string
 * or a number.
 */
module TableSort {
  import opened JsStrings
  import opened ControlledTable
  import opened Values
  import opened ArraySort

  /** `typeof value === "string" || typeof value === "number"`. */
  predicate IsSortableValue(v: Value)
  {
    v.Str? || v.Num?
  }

  /**
   * JavaScript `a < b` on two cell values. A string compared with a number is
   * modelled as a string that does not read as a number: the comparison
   * yields NaN and `<` is false.
   */
  predicate JsLess(a: Value, b: Value)
  {
    match (a, b)
    case (Str(x), Str(y)) => Less(x, y)
    case (Num(x), Num(y)) => x < y
    case _ => false
  }

  /** `row[key]`: the key "id" reads the row id; a missing key reads as undefined. */
  function Field(row: Row, key: string): Value
  {
    if key == "id" then
      match row.id
      case IdNum(n) => Num(n)
      case IdStr(s) => Str(s)
    else if key in row.fields then row.fields[key]
    else Other
  }

  /** The comparator handed to `sort` for sort column `key` and direction `dir`. */
  function Compare(a: Row, b: Row, key: string, dir: Direction): int
  {
    var av, bv := Field(a, key), Field(b, key);
    if av == bv || !IsSortableValue(av) || !IsSortableValue(bv) then 0
    else if dir == Asc then (if JsLess(av, bv) then -1 else 1)
    else (if JsLess(bv, av) then -1 else 1)
  }

  /** Both values are strings, or both are numbers. */
  predicate SameKind(u: Value, v: Value)
  {
    (u.Str? && v.Str?) || (u.Num? && v.Num?)
  }

  /**
   * Equal values, and pairs where either value is not a string or a number,
   * compare as 0; any other pair is ordered one way or the other.
   */
  lemma CompareZero(a: Row, b: Row, key: string, dir: Direction)
    ensures var av, bv := Field(a, key), Field(b, key);
            (Compare(a, b, key, dir) == 0 <==> av == bv || !IsSortableValue(av) || !IsSortableValue(bv))
    ensures Compare(a, b, key, dir) in {-1, 0, 1}
  {
  }

  /** On values of one kind `JsLess` is a strict total order. */
  lemma JsLessTotal(u: Value, v: Value)
    requires SameKind(u, v)
    ensures !JsLess(u, u)
    ensures JsLess(u, v) ==> !JsLess(v, u)
    ensures u == v || JsLess(u, v) || JsLess(v, u)
  {
    if u.Str? {
      LessIrreflexive(u.s);
      if Less(u.s, v.s) {
        LessAsymmetric(u.s, v.s);
      }
      LessTrichotomous(u.s, v.s);
    }
  }

  lemma JsLessTransitive(u: Value, v: Value, w: Value)
    requires SameKind(u, v) && SameKind(v, w)
    requires JsLess(u, v) && JsLess(v, w)
    ensures JsLess(u, w)
  {
    if u.Str? {
      LessTransitive(u.s, v.s, w.s);
    }
  }

  /**
   * For two values of one kind the comparator is the value order: ascending,
   * a row goes no later than another exactly when its value is not greater;
   * descending, exactly when its value is not smaller.
   */
  lemma CompareSameKind(a: Row, b: Row, key: string, dir: Direction)
    requires SameKind(Field(a, key), Field(b, key))
    ensures var av, bv := Field(a, key), Field(b, key);
            Compare(a, b, key, dir) <= 0 <==> (if dir == Asc then !JsLess(bv, av) else !JsLess(av, bv))
  {
    JsLessTotal(Field(a, key), Field(b, key));
  }

  // ---------------------------------------------------------------------------
  // The sorted view
  // ---------------------------------------------------------------------------

  /** The comparator as the function value handed to `sort`. */
  function Comparator(key: string, dir: Direction): (Row, Row) -> int
  {
    (a, b) => Compare(a, b, key, dir)
  }

  /** The projection of a row onto its value in column `key`. */
  function FieldOf(key: string): Row -> Value
  {
    r => Field(r, key)
  }

  /** `[...rows].sort(comparator)` for sort column `key` and direction `dir`. */
  function SortRows(rows: seq<Row>, key: string, dir: Direction): seq<Row>
  {
    SortBy(rows, Comparator(key, dir))
  }

  /** The sorted view is a permutation of the rows. */
  lemma SortRowsPermutes(rows: seq<Row>, key: string, dir: Direction)
    ensures multiset(SortRows(rows, key, dir)) == multiset(rows)
    ensures |SortRows(rows, key, dir)| == |rows|
  {
    SortPermutes(rows, Comparator(key, dir));
  }

  /**
   * Stability of the modelled sort: for every value, the rows holding it in
   * the sort column come out in their input order, because rows with equal
   * values always compare as 0. On a column that mixes strings or numbers
   * with other values the comparator is not consistent, and there this is a
   * property of the modelled insertion sort rather than of every engine.
   */
  lemma SortRowsStable(rows: seq<Row>, key: string, dir: Direction, v: Value)
    ensures WithKey(SortRows(rows, key, dir), FieldOf(key), v) == WithKey(rows, FieldOf(key), v)
  {
    assert TiesOnEqualKeys(Comparator(key, dir), FieldOf(key)) by {
      forall a: Row, b: Row | FieldOf(key)(a) == FieldOf(key)(b)
        ensures Comparator(key, dir)(a, b) == 0
      {
        CompareZero(a, b, key, dir);
      }
    }
    SortIsStable(rows, Comparator(key, dir), FieldOf(key), v);
  }

  /** When no value in the column is a string or a number, the rows come out in input order. */
  lemma NothingSortableKeepsOrder(rows: seq<Row>, key: string, dir: Direction)
    requires forall r | r in rows :: !IsSortableValue(Field(r, key))
    ensures SortRows(rows, key, dir) == rows
  {
    var cmp := Comparator(key, dir);
    forall i, j | 0 <= i < |rows| && 0 <= j < |rows| ensures cmp(rows[i], rows[j]) == 0 {
      assert rows[i] in rows;
    }
    SortKeepsTiedElements(rows, cmp);
  }

  /** Every row of `rows` holds a string in column `key` (when `strings`), or a number (otherwise). */
  predicate AllOfKind(rows: seq<Row>, key: string, strings: bool)
  {
    forall r | r in rows :: if strings then Field(r, key).Str? else Field(r, key).Num?
  }

  /** Every value in the column is a string, or every value is a number. */
  predicate Homogeneous(rows: seq<Row>, key: string)
  {
    AllOfKind(rows, key, true) || AllOfKind(rows, key, false)
  }

  /** On values of one kind the comparator is a total preorder. */
  lemma ComparePreorder(x: Row, y: Row, z: Row, key: string, dir: Direction)
    requires SameKind(Field(x, key), Field(y, key)) && SameKind(Field(y, key), Field(z, key))
    ensures Compare(x, y, key, dir) > 0 ==> Compare(y, x, key, dir) <= 0
    ensures Compare(x, y, key, dir) <= 0 && Compare(y, z, key, dir) <= 0 ==> Compare(x, z, key, dir) <= 0
  {
    var u, v, w := Field(x, key), Field(y, key), Field(z, key);
    CompareSameKind(x, y, key, dir);
    CompareSameKind(y, x, key, dir);
    CompareSameKind(y, z, key, dir);
    CompareSameKind(x, z, key, dir);
    JsLessTotal(u, v);
    JsLessTotal(v, w);
    JsLessTotal(u, w);
    if JsLess(u, v) && JsLess(v, w) { JsLessTransitive(u, v, w); }
    if JsLess(w, v) && JsLess(v, u) { JsLessTransitive(w, v, u); }
  }

  lemma HomogeneousPreorder(rows: seq<Row>, key: string, dir: Direction)
    requires Homogeneous(rows, key)
    ensures TotalPreorderOn(rows, Comparator(key, dir))
  {
    var cmp := Comparator(key, dir);
    forall x, y | x in rows && y in rows ensures cmp(x, y) > 0 ==> cmp(y, x) <= 0 {
      ComparePreorder(x, y, y, key, dir);
    }
    forall x, y, z | x in rows && y in rows && z in rows
      ensures cmp(x, y) <= 0 && cmp(y, z) <= 0 ==> cmp(x, z) <= 0
    {
      ComparePreorder(x, y, z, key, dir);
    }
  }

  /**
   * When every value in the sort column is a string, or every value is a
   * number, ascending gives non-decreasing values and descending gives
   * non-increasing values.
   */
  lemma SortOrdersHomogeneousColumn(rows: seq<Row>, key: string, dir: Direction)
    requires Homogeneous(rows, key)
    ensures var out := SortRows(rows, key, dir);
            forall i, j | 0 <= i < j < |out| ::
              if dir == Asc then !JsLess(Field(out[j], key), Field(out[i], key))
              else !JsLess(Field(out[i], key), Field(out[j], key))
  {
    HomogeneousPreorder(rows, key, dir);
    SortSorts(rows, Comparator(key, dir));
    SortRowsPermutes(rows, key, dir);
    var out := SortRows(rows, key, dir);
    forall i, j | 0 <= i < j < |out|
      ensures if dir == Asc then !JsLess(Field(out[j], key), Field(out[i], key))
              else !JsLess(Field(out[i], key), Field(out[j], key))
    {
      assert out[i] in multiset(rows) && out[j] in multiset(rows);
      assert out[i] in rows && out[j] in rows;
      assert Compare(out[i], out[j], key, dir) <= 0;
      CompareSameKind(out[i], out[j], key, dir);
    }
  }
}

/**
 * Values read out of a row object, shared by the self-sorting table and the
 * caching editor's sort key.
 */
module Values {
  import opened JsStrings

  /** A value as a sort comparator sees it: a string, a number, or anything else (including a missing key). */
  datatype Value = Str(s: JsString) | Num(n: int) | Other
}

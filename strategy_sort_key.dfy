/**
 * The sort key of a row in the caching strategy editor's table of questions
 * and dashboards (caching utils.tsx, `formatValueForSorting`).
 *
 * For the "policy" column the key is the strategy's short label; for a
 * duration strategy the first run of digits followed by "h" (the regular
 * expression `/(\d+)h/`) is replaced by "Duration " and the digits padded
 * on the left with zeros to width 5, so that string order on keys follows
 * the number of hours. The short label, the collection path and the generic
 * field lookup come from code outside this model and are inputs here.
 */
module StrategySortKey {
  import opened Wrappers
  import opened JsStrings
  import opened Values

  /**
   * A row of the editor's table, as far as its sort key depends on it: the
   * strategy type, the short label computed for its strategy (absent when
   * there is none), the path string of its collection (absent when the row
   * has no collection), and its other fields by name.
   */
  datatype Item = Item(
    strategyType: string,
    shortLabel: Option<JsString>,
    collectionPath: Option<JsString>,
    fields: map<string, Value>)

  // ---------------------------------------------------------------------------
  // The regular expression /(\d+)h/
  // ---------------------------------------------------------------------------

  /** All code units of `d` are decimal digits. */
  predicate AllDigits(d: JsString)
  {
    forall k | 0 <= k < |d| :: IsDigit(d[k])
  }

  /** The end of the longest run of digits in `s` that starts at `i`. */
  function RunEnd(s: JsString, i: nat): (e: nat)
    requires i <= |s|
    ensures i <= e <= |s|
    decreases |s| - i
  {
    if i < |s| && IsDigit(s[i]) then RunEnd(s, i + 1) else i
  }

  /** `RunEnd` ends a run of digits that cannot be extended. */
  lemma {:induction false} RunEndIsLongestRun(s: JsString, i: nat)
    requires i <= |s|
    ensures AllDigits(s[i..RunEnd(s, i)])
    ensures RunEnd(s, i) == |s| || !IsDigit(s[RunEnd(s, i)])
    decreases |s| - i
  {
    if i < |s| && IsDigit(s[i]) {
      RunEndIsLongestRun(s, i + 1);
      var e := RunEnd(s, i);
      forall k | 0 <= k < e - i ensures IsDigit(s[i..e][k]) {
        if k > 0 { assert s[i..e][k] == s[i + 1..e][k - 1]; }
      }
    }
  }

  const HOUR: CodeUnit := 'h' as int

  /** `/(\d+)h/` matches at position `i`: a greedy run of digits starts there and is followed by "h". */
  predicate MatchAt(s: JsString, i: nat)
  {
    i < |s| && IsDigit(s[i]) && RunEnd(s, i) < |s| && s[RunEnd(s, i)] == HOUR
  }

  /**
   * The regular expression matches at `i` exactly when some non-empty run of
   * digits starting at `i` is directly followed by "h"; such a run can only
   * be the longest one, so the captured group is `s[i..RunEnd(s, i)]`.
   */
  lemma MatchAtIsRegexMatch(s: JsString, i: nat, j: nat)
    requires i < j < |s|
    ensures AllDigits(s[i..j]) && s[j] == HOUR ==> MatchAt(s, i) && j == RunEnd(s, i)
  {
    if AllDigits(s[i..j]) && s[j] == HOUR {
      RunEndOfDigits(s, i, j);
    }
  }

  /** A run of digits from `i` to `j` followed by a non-digit ends at `j`. */
  lemma {:induction false} RunEndOfDigits(s: JsString, i: nat, j: nat)
    requires i <= j < |s| && AllDigits(s[i..j]) && !IsDigit(s[j])
    ensures RunEnd(s, i) == j
    decreases j - i
  {
    if i < j {
      assert IsDigit(s[i..j][0]);
      assert s[i + 1..j] == s[i..j][1..];
      RunEndOfDigits(s, i + 1, j);
    }
  }

  /** The leftmost position at or after `i` where the expression matches. */
  function FirstMatchFrom(s: JsString, i: nat): (m: Option<nat>)
    requires i <= |s|
    ensures m.Some? ==> i <= m.value < |s| && MatchAt(s, m.value)
    decreases |s| - i
  {
    if i == |s| then None
    else if MatchAt(s, i) then Some(i)
    else FirstMatchFrom(s, i + 1)
  }

  /** The search finds the leftmost match at or after `i`, and finds none only when there is none. */
  lemma {:induction false} FirstMatchIsLeftmost(s: JsString, i: nat)
    requires i <= |s|
    ensures FirstMatchFrom(s, i).Some? ==> forall k | i <= k < FirstMatchFrom(s, i).value :: !MatchAt(s, k)
    ensures FirstMatchFrom(s, i).None? ==> forall k | i <= k < |s| :: !MatchAt(s, k)
    decreases |s| - i
  {
    if i < |s| && !MatchAt(s, i) {
      FirstMatchIsLeftmost(s, i + 1);
    }
  }

  /** Where `String.prototype.replace` with a non-global expression finds its match. */
  function FirstMatch(s: JsString): Option<nat>
  {
    FirstMatchFrom(s, 0)
  }

  // ---------------------------------------------------------------------------
  // The replacement
  // ---------------------------------------------------------------------------

  function Zeros(n: nat): (z: JsString)
    ensures |z| == n
  {
    if n == 0 then [] else [('0' as int) as CodeUnit] + Zeros(n - 1)
  }

  /** `d.padStart(5, "0")`. */
  function PadStart(d: JsString): (p: JsString)
  {
    if |d| >= 5 then d else Zeros(5 - |d|) + d
  }

  /** The text put in place of the match, before the padded digits: "Duration " (see `DurationPrefixIsText`). */
  const DURATION_PREFIX: JsString := [68, 117, 114, 97, 116, 105, 111, 110, 32]

  /** The label with the digits `s[i..e]` and the "h" after them rewritten. */
  function RewriteMatch(s: JsString, i: nat, e: nat): JsString
    requires i <= e < |s|
  {
    s[..i] + DURATION_PREFIX + PadStart(s[i..e]) + s[e + 1..]
  }

  /** `label.replace(/(\d+)h/, ...)`: only the first match is rewritten, and its "h" is consumed. */
  function ReplaceFirstHours(s: JsString): JsString
  {
    match FirstMatch(s)
    case None => s
    case Some(i) => RewriteMatch(s, i, RunEnd(s, i))
  }

  /**
   * Padding never truncates: the result is the digits preceded by zeros, at
   * least five long, and a run of five digits or more is kept as it is.
   */
  lemma PadStartKeepsDigits(d: JsString)
    ensures |PadStart(d)| == if |d| >= 5 then |d| else 5
    ensures PadStart(d) == Zeros(|PadStart(d)| - |d|) + d
    ensures |d| >= 5 ==> PadStart(d) == d
  {
    if |d| >= 5 {
      assert Zeros(0) + d == d;
    }
  }

  /** A label is changed exactly when the expression matches somewhere in it; a rewritten label grows. */
  lemma ReplaceChangesIffMatch(s: JsString)
    ensures ReplaceFirstHours(s) == s <==> FirstMatch(s).None?
    ensures FirstMatch(s).Some? ==> |ReplaceFirstHours(s)| > |s|
  {
    if FirstMatch(s).Some? {
      var i := FirstMatch(s).value;
      var e := RunEnd(s, i);
      PadStartKeepsDigits(s[i..e]);
      assert |RewriteMatch(s, i, e)| == i + 9 + |PadStart(s[i..e])| + (|s| - e - 1);
    }
  }

  // ---------------------------------------------------------------------------
  // The sort key
  // ---------------------------------------------------------------------------

  /**
   * `formatValueForSorting(row, columnName)`; `None` stands for undefined.
   * "policy": the short label, rewritten for a duration strategy.
   * "collection": the collection path, or "" without a collection.
   * Any other column: the row's field of that name.
   */
  function FormatValueForSorting(item: Item, columnName: string): (key: Option<Value>)
    ensures columnName == "policy" ==> (key.Some? <==> item.shortLabel.Some?)
    ensures columnName == "policy" && item.strategyType != "duration" ==>
      key == if item.shortLabel.Some? then Some(Str(item.shortLabel.value)) else None
    ensures columnName == "policy" && item.strategyType == "duration" && item.shortLabel.Some? ==>
      key == Some(Str(ReplaceFirstHours(item.shortLabel.value)))
    ensures columnName == "collection" ==>
      (key.Some? && key.value.Str? &&
       key.value.s == if item.collectionPath.Some? then item.collectionPath.value else [])
    ensures columnName != "policy" && columnName != "collection" ==>
      (key.Some? <==> columnName in item.fields) &&
      (key.Some? ==> key.value == item.fields[columnName])
  {
    if columnName == "policy" then
      (match item.shortLabel
       case None => None
       case Some(shortLabel) =>
         if item.strategyType == "duration" then Some(Str(ReplaceFirstHours(shortLabel))) else Some(Str(shortLabel)))
    else if columnName == "collection" then
      Some(Str(if item.collectionPath.Some? then item.collectionPath.value else []))
    else if columnName in item.fields then Some(item.fields[columnName])
    else None
  }

  // ---------------------------------------------------------------------------
  // Order of the padded durations
  // ---------------------------------------------------------------------------

  /** A smaller leading digit decides: `x` then fewer than `p` is below `y` then anything, when `x < y`. */
  lemma LeadingDigitDecides(x: int, y: int, p: nat, ra: nat, rb: nat)
    requires 0 <= x < y && ra < p
    ensures x * p + ra < y * p + rb
  {
    var k := y - (x + 1);
    assert k >= 0;
    assert y * p == x * p + p + k * p;
    assert k * p >= 0;
  }

  /** Between two digit strings of one length, string order is numeric order. */
  lemma {:induction false} DigitOrderIsNumericOrder(a: JsString, b: JsString)
    requires |a| == |b| && AllDigits(a) && AllDigits(b)
    ensures Less(a, b) <==> DigitsValue(a) < DigitsValue(b)
  {
    if a != [] {
      assert AllDigits(a[1..]) && AllDigits(b[1..]);
      assert IsDigit(a[0]) && IsDigit(b[0]);
      var p := Pow10(|a| - 1);
      var x, y := a[0] - '0' as int, b[0] - '0' as int;
      var ra, rb := DigitsValue(a[1..]), DigitsValue(b[1..]);
      assert DigitsValue(a) == x * p + ra;
      assert DigitsValue(b) == y * p + rb;
      if x == y {
        DigitOrderIsNumericOrder(a[1..], b[1..]);
      } else if x < y {
        LeadingDigitDecides(x, y, p, ra, rb);
      } else {
        LeadingDigitDecides(y, x, p, rb, ra);
      }
    }
  }

  /** Leading zeros do not change the value of a digit string. */
  lemma {:induction false} LeadingZerosKeepValue(n: nat, d: JsString)
    requires AllDigits(d)
    ensures AllDigits(Zeros(n) + d)
    ensures DigitsValue(Zeros(n) + d) == DigitsValue(d)
  {
    if n == 0 {
      assert Zeros(n) + d == d;
    } else {
      var z := Zeros(n) + d;
      assert z[0] == '0' as int;
      assert z[1..] == Zeros(n - 1) + d;
      LeadingZerosKeepValue(n - 1, d);
      assert DigitsValue(z) == 0 * Pow10(|z| - 1) + DigitsValue(z[1..]);
    }
  }

  /** Two digit strings of one length with one value are equal. */
  lemma SameValueSameDigits(a: JsString, b: JsString)
    requires |a| == |b| && AllDigits(a) && AllDigits(b)
    requires DigitsValue(a) == DigitsValue(b)
    ensures a == b
  {
    DigitOrderIsNumericOrder(a, b);
    DigitOrderIsNumericOrder(b, a);
    LessTrichotomous(a, b);
  }

  /**
   * Runs of at most five digits padded to width 5 compare as strings exactly
   * as their numbers compare, and runs with one value pad to one string.
   */
  lemma PaddedOrderIsNumericOrder(a: JsString, b: JsString)
    requires AllDigits(a) && AllDigits(b) && |a| <= 5 && |b| <= 5
    ensures |PadStart(a)| == 5 && |PadStart(b)| == 5
    ensures Less(PadStart(a), PadStart(b)) <==> DigitsValue(a) < DigitsValue(b)
    ensures PadStart(a) == PadStart(b) <==> DigitsValue(a) == DigitsValue(b)
  {
    PadStartKeepsDigits(a);
    PadStartKeepsDigits(b);
    LeadingZerosKeepValue(5 - |a|, a);
    LeadingZerosKeepValue(5 - |b|, b);
    DigitOrderIsNumericOrder(PadStart(a), PadStart(b));
    if DigitsValue(a) == DigitsValue(b) {
      SameValueSameDigits(PadStart(a), PadStart(b));
    }
  }

  /** With no digit before `n`, a run of digits from `n` to `e` and "h" at `e`, the first match is at `n`. */
  lemma FirstMatchAfterNonDigits(s: JsString, n: nat, e: nat)
    requires n < e < |s| && s[e] == HOUR
    requires forall k | 0 <= k < n :: !IsDigit(s[k])
    requires AllDigits(s[n..e])
    ensures FirstMatch(s) == Some(n) && RunEnd(s, n) == e
  {
    RunEndOfDigits(s, n, e);
    assert IsDigit(s[n..e][0]);
    assert MatchAt(s, n);
    FirstMatchUpTo(s, 0, n);
  }

  /** The pieces of `p + d + "h" + q`, recovered by position. */
  lemma LabelPieces(p: JsString, d: JsString, q: JsString)
    ensures var s := p + d + [HOUR] + q;
            |s| == |p| + |d| + 1 + |q| &&
            s[..|p|] == p && s[|p|..|p| + |d|] == d && s[|p| + |d|] == HOUR && s[|p| + |d| + 1..] == q
  {
  }

  /** In `p + d + "h" + q`, with no digit in `p` and `d` a run of digits, the first match is at `|p|`. */
  lemma MatchAfterPrefix(p: JsString, d: JsString, q: JsString)
    requires forall k | 0 <= k < |p| :: !IsDigit(p[k])
    requires d != [] && AllDigits(d)
    ensures var s := p + d + [HOUR] + q;
            FirstMatch(s) == Some(|p|) && RunEnd(s, |p|) == |p| + |d|
  {
    var s := p + d + [HOUR] + q;
    LabelPieces(p, d, q);
    assert forall k | 0 <= k < |p| :: s[k] == p[k];
    FirstMatchAfterNonDigits(s, |p|, |p| + |d|);
  }

  /** When nothing matches before `m` and the expression matches at `m`, the search from `i` finds `m`. */
  lemma {:induction false} FirstMatchUpTo(s: JsString, i: nat, m: nat)
    requires i <= m < |s| && MatchAt(s, m)
    requires forall k | i <= k < m :: !MatchAt(s, k)
    ensures FirstMatchFrom(s, i) == Some(m)
    decreases m - i
  {
    if i < m {
      FirstMatchUpTo(s, i + 1, m);
    }
  }

  /** Where the expression first matches at `i`, the rewrite is that of the match. */
  lemma ReplaceAtFirstMatch(s: JsString, i: nat)
    requires FirstMatch(s) == Some(i)
    ensures ReplaceFirstHours(s) == RewriteMatch(s, i, RunEnd(s, i))
  {
  }

  /** Rewriting the digits `d` of `p + d + "h" + q` pads them in place. */
  lemma RewriteMatchPieces(p: JsString, d: JsString, q: JsString)
    ensures RewriteMatch(p + d + [HOUR] + q, |p|, |p| + |d|) == (p + DURATION_PREFIX) + (PadStart(d) + q)
  {
    LabelPieces(p, d, q);
  }

  /** Rewriting `p + d + "h" + q`, with no digit in `p` and `d` a run of digits, pads `d` in place. */
  lemma ReplaceAfterPrefix(p: JsString, d: JsString, q: JsString)
    requires forall k | 0 <= k < |p| :: !IsDigit(p[k])
    requires d != [] && AllDigits(d)
    ensures ReplaceFirstHours(p + d + [HOUR] + q) == (p + DURATION_PREFIX) + (PadStart(d) + q)
  {
    var s := p + d + [HOUR] + q;
    MatchAfterPrefix(p, d, q);
    ReplaceAtFirstMatch(s, |p|);
    RewriteMatchPieces(p, d, q);
  }

  /**
   * The stated aim of the rewrite: two duration labels that differ only in
   * their hour counts of at most five digits after a common digit-free
   * prefix get keys in the order of their hour counts.
   */
  lemma DurationKeysFollowHours(p: JsString, d1: JsString, q1: JsString, d2: JsString, q2: JsString)
    requires forall k | 0 <= k < |p| :: !IsDigit(p[k])
    requires d1 != [] && AllDigits(d1) && |d1| <= 5
    requires d2 != [] && AllDigits(d2) && |d2| <= 5
    requires DigitsValue(d1) != DigitsValue(d2)
    ensures var h := [HOUR];
            var k1, k2 := ReplaceFirstHours(p + d1 + h + q1), ReplaceFirstHours(p + d2 + h + q2);
            Less(k1, k2) <==> DigitsValue(d1) < DigitsValue(d2)
  {
    ReplaceAfterPrefix(p, d1, q1);
    ReplaceAfterPrefix(p, d2, q2);
    PaddedOrderIsNumericOrder(d1, d2);
    LessCommonPrefix(p + DURATION_PREFIX, PadStart(d1) + q1, PadStart(d2) + q2);
    LessEqualLengthPrefix(PadStart(d1), PadStart(d2), q1, q2);
  }

  /** A label that is just a run of digits and "h" becomes "Duration " and the padded digits. */
  lemma ReplaceBareHours(d: JsString)
    requires d != [] && AllDigits(d)
    ensures ReplaceFirstHours(d + [HOUR]) == DURATION_PREFIX + PadStart(d)
  {
    var s := d + [HOUR];
    assert s[0..|d|] == d && s[|d|] == HOUR;
    FirstMatchAfterNonDigits(s, 0, |d|);
    ReplaceAtFirstMatch(s, 0);
    assert s[..0] == [] && s[|d| + 1..] == [];
    assert RewriteMatch(s, 0, |d|) == DURATION_PREFIX + PadStart(d);
  }

  /** `DURATION_PREFIX` is the text "Duration ". */
  lemma DurationPrefixIsText()
    ensures DURATION_PREFIX == Bmp("Duration ")
  {
  }

  /**
   * The padding stops working past five digits: the label "100000h" gets a
   * key before the label "99999h".
   */
  lemma SixDigitHoursSortFirst()
    ensures Less(ReplaceFirstHours(Bmp("100000h")), ReplaceFirstHours(Bmp("99999h")))
  {
    var d1: JsString, d2: JsString := [49, 48, 48, 48, 48, 48], [57, 57, 57, 57, 57];
    HoursLabels();
    ReplaceBareHours(d1);
    ReplaceBareHours(d2);
    assert PadStart(d1) == d1 && PadStart(d2) == d2;
    assert Less(d1, d2);
    LessCommonPrefix(DURATION_PREFIX, d1, d2);
  }

  lemma HoursLabels()
    ensures Bmp("100000h") == [49, 48, 48, 48, 48, 48] + [HOUR]
    ensures Bmp("99999h") == [57, 57, 57, 57, 57] + [HOUR]
  {
  }
}

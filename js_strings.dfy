/**
 * JavaScript strings as the engine sees them: sequences of UTF-16 code units.
 * The relational operators `<` and `>` on two strings compare code unit by
 * code unit, with a proper prefix ordered first.
 */
module JsStrings {

  /** One UTF-16 code unit. */
  type CodeUnit = c: int | 0 <= c < 0x1_0000

  type JsString = seq<CodeUnit>

  /** The string `s`, given as Dafny characters that all lie in the Basic Multilingual Plane. */
  function Bmp(s: string): (r: JsString)
    requires forall i | 0 <= i < |s| :: s[i] as int < 0x1_0000
    ensures |r| == |s|
    ensures forall i | 0 <= i < |s| :: r[i] == s[i] as int
  {
    if s == [] then [] else [s[0] as int] + Bmp(s[1..])
  }

  /** `a < b` on strings. */
  predicate Less(a: JsString, b: JsString)
  {
    if a == [] then b != []
    else b != [] && (a[0] < b[0] || (a[0] == b[0] && Less(a[1..], b[1..])))
  }

  lemma {:induction false} LessIrreflexive(a: JsString)
    ensures !Less(a, a)
  {
    if a != [] {
      LessIrreflexive(a[1..]);
    }
  }

  lemma {:induction false} LessAsymmetric(a: JsString, b: JsString)
    requires Less(a, b)
    ensures !Less(b, a)
  {
    if a != [] && b != [] && a[0] == b[0] {
      LessAsymmetric(a[1..], b[1..]);
    }
  }

  lemma {:induction false} LessTransitive(a: JsString, b: JsString, c: JsString)
    requires Less(a, b) && Less(b, c)
    ensures Less(a, c)
  {
    if a != [] && a[0] == b[0] && b[0] == c[0] {
      LessTransitive(a[1..], b[1..], c[1..]);
    }
  }

  /** Distinct strings are always ordered one way or the other. */
  lemma {:induction false} LessTrichotomous(a: JsString, b: JsString)
    ensures a == b || Less(a, b) || Less(b, a)
  {
    if a != [] && b != [] && a[0] == b[0] {
      LessTrichotomous(a[1..], b[1..]);
      if a[1..] == b[1..] {
        assert a == [a[0]] + a[1..] && b == [b[0]] + b[1..];
      }
    }
  }

  /** A common prefix does not change the order. */
  lemma {:induction false} LessCommonPrefix(p: JsString, a: JsString, b: JsString)
    ensures Less(p + a, p + b) <==> Less(a, b)
  {
    if p == [] {
      assert p + a == a && p + b == b;
    } else {
      assert (p + a)[1..] == p[1..] + a && (p + b)[1..] == p[1..] + b;
      LessCommonPrefix(p[1..], a, b);
    }
  }

  /** Between two distinct strings of one length, whatever follows does not change the order. */
  lemma {:induction false} LessEqualLengthPrefix(a: JsString, b: JsString, x: JsString, y: JsString)
    requires |a| == |b| && a != b
    ensures Less(a + x, b + y) <==> Less(a, b)
  {
    assert a != [] && b != [];
    if a[0] == b[0] {
      assert a[1..] != b[1..] by {
        assert a == [a[0]] + a[1..] && b == [b[0]] + b[1..];
      }
      assert (a + x)[1..] == a[1..] + x && (b + y)[1..] == b[1..] + y;
      LessEqualLengthPrefix(a[1..], b[1..], x, y);
    }
  }

  /** `\d` of a JavaScript regular expression: the ASCII digits 0 to 9. */
  predicate IsDigit(c: CodeUnit)
  {
    '0' as int <= c <= '9' as int
  }

  /** The numeric value of a run of decimal digits, most significant first. */
  function DigitsValue(d: JsString): (n: nat)
    requires forall k | 0 <= k < |d| :: IsDigit(d[k])
    ensures n < Pow10(|d|)
  {
    if d == [] then 0
    else
      assert IsDigit(d[0]);
      var digit, rest := d[0] - '0' as int, DigitsValue(d[1..]);
      DigitPlaceBound(digit, Pow10(|d| - 1), rest);
      digit * Pow10(|d| - 1) + rest
  }

  /** A digit in a place worth `p`, plus less than `p`, stays below `10 * p`. */
  lemma DigitPlaceBound(digit: int, p: nat, rest: nat)
    requires 0 <= digit <= 9 && rest < p
    ensures 0 <= digit * p + rest < 10 * p
  {
    assert 0 <= digit * p <= 9 * p by {
      assert (9 - digit) * p >= 0 && digit * p >= 0;
    }
  }

  function Pow10(n: nat): (p: nat)
    ensures p >= 1
  {
    if n == 0 then 1 else 10 * Pow10(n - 1)
  }
}

/**
 * The e-mail check of the embedding SDK's `start` command (start.ts,
 * `isEmail`): the regular expression `^\S+@\S+\.\S+$` over the whole
 * input. `\S` is any code unit that is not JavaScript white space or a line
 * terminator, so it also matches "@" and ".".
 *
 * `IsEmail` decides the expression directly: it uses the first "@" after
 * the first position and the last "." before the last position. The lemmas
 * show that this is exactly the expression's meaning.
 */
module StartCli {
  import opened JsStrings

  /** `\s` of a JavaScript regular expression: white space and line terminators. */
  predicate IsWhiteSpace(c: CodeUnit)
  {
    (0x09 <= c <= 0x0D) || c == 0x20 || c == 0xA0 || c == 0x1680 ||
    (0x2000 <= c <= 0x200A) || c == 0x2028 || c == 0x2029 || c == 0x202F ||
    c == 0x205F || c == 0x3000 || c == 0xFEFF
  }

  /** Every code unit of `s` matches `\S`. */
  predicate NoWhiteSpace(s: JsString)
  {
    forall k | 0 <= k < |s| :: !IsWhiteSpace(s[k])
  }

  const AT: CodeUnit := '@' as int
  const DOT: CodeUnit := '.' as int

  /** The first "@" at or after `i`, or `|s|` when there is none. */
  function FirstAtFrom(s: JsString, i: nat): (a: nat)
    requires i <= |s|
    ensures i <= a <= |s|
    ensures a < |s| ==> s[a] == AT
    ensures forall k | i <= k < a :: s[k] != AT
    decreases |s| - i
  {
    if i == |s| || s[i] == AT then i else FirstAtFrom(s, i + 1)
  }

  /** The last "." before `n`, or -1 when there is none. */
  function LastDotBefore(s: JsString, n: nat): (d: int)
    requires n <= |s|
    ensures -1 <= d < n
    ensures d >= 0 ==> s[d] == DOT
    ensures forall k | d < k < n :: s[k] != DOT
  {
    if n == 0 then -1 else if s[n - 1] == DOT then n - 1 else LastDotBefore(s, n - 1)
  }

  /**
   * `isEmail(s)`: no white space, an "@" with something before it, and a
   * "." with something between the two and something after the ".".
   */
  predicate IsEmail(s: JsString)
  {
    |s| >= 1 && NoWhiteSpace(s) &&
    var a, d := FirstAtFrom(s, 1), LastDotBefore(s, |s| - 1);
    a < |s| && d >= a + 2
  }

  /** The expression's meaning: some "@" and some later "." split `s` into three non-empty runs of `\S`. */
  ghost predicate MatchesEmailPattern(s: JsString)
  {
    NoWhiteSpace(s) &&
    exists a, d | 1 <= a && a + 2 <= d && d + 2 <= |s| :: s[a] == AT && s[d] == DOT
  }

  /** `IsEmail` accepts exactly the strings the expression matches. */
  lemma IsEmailMatchesPattern(s: JsString)
    ensures IsEmail(s) <==> MatchesEmailPattern(s)
  {
    if MatchesEmailPattern(s) {
      var a', d' :| 1 <= a' && a' + 2 <= d' && d' + 2 <= |s| && s[a'] == AT && s[d'] == DOT;
      var a, d := FirstAtFrom(s, 1), LastDotBefore(s, |s| - 1);
      assert a <= a';
      assert d >= d';
    }
    if IsEmail(s) {
      var a, d := FirstAtFrom(s, 1), LastDotBefore(s, |s| - 1);
      assert 1 <= a && a + 2 <= d && d + 2 <= |s| && s[a] == AT && s[d] == DOT;
    }
  }

  /** Any `x + "@" + y + "." + z` with non-empty white-space-free parts is accepted. */
  lemma EmailFromParts(x: JsString, y: JsString, z: JsString)
    requires x != [] && y != [] && z != []
    requires NoWhiteSpace(x) && NoWhiteSpace(y) && NoWhiteSpace(z)
    ensures IsEmail(x + [AT] + y + [DOT] + z)
  {
    var s := x + [AT] + y + [DOT] + z;
    forall k | 0 <= k < |s| ensures !IsWhiteSpace(s[k]) {
      if k < |x| { assert s[k] == x[k]; }
      else if k == |x| { assert s[k] == AT; }
      else if k < |x| + 1 + |y| { assert s[k] == y[k - |x| - 1]; }
      else if k == |x| + 1 + |y| { assert s[k] == DOT; }
      else { assert s[k] == z[k - |x| - |y| - 2]; }
    }
    var a, d := |x|, |x| + 1 + |y|;
    assert s[a] == AT && s[d] == DOT;
    IsEmailMatchesPattern(s);
  }

  /** Every accepted string splits as `x + "@" + y + "." + z` with non-empty white-space-free parts. */
  lemma EmailParts(s: JsString) returns (x: JsString, y: JsString, z: JsString)
    requires IsEmail(s)
    ensures s == x + [AT] + y + [DOT] + z
    ensures x != [] && y != [] && z != []
    ensures NoWhiteSpace(x) && NoWhiteSpace(y) && NoWhiteSpace(z)
  {
    var a, d := FirstAtFrom(s, 1), LastDotBefore(s, |s| - 1);
    x, y, z := s[..a], s[a + 1..d], s[d + 1..];
    assert s == x + [AT] + y + [DOT] + z;
    forall k | 0 <= k < |y| ensures !IsWhiteSpace(y[k]) {
      assert y[k] == s[a + 1 + k];
    }
    forall k | 0 <= k < |z| ensures !IsWhiteSpace(z[k]) {
      assert z[k] == s[d + 1 + k];
    }
  }

  /** Since `\S` matches "@", a second "@" is accepted: "a@b@c.d" is "a@b", "@", "c", ".", "d". */
  lemma AcceptsSecondAt()
    ensures IsEmail(Bmp("a@b@c.d"))
  {
    var s := Bmp("a@b@c.d");
    var x: JsString, y: JsString, z: JsString := [97, 64, 98], [99], [100];
    assert s == x + [AT] + y + [DOT] + z;
    EmailFromParts(x, y, z);
  }

  /** Since `\S` matches ".", extra dots are accepted: "a.b@c.d.e" is "a.b", "@", "c.d", ".", "e". */
  lemma AcceptsExtraDots()
    ensures IsEmail(Bmp("a.b@c.d.e"))
  {
    var x: JsString, y: JsString, z: JsString := [97, 46, 98], [99, 46, 100], [101];
    EmailFromParts(x, y, z);
    BmpOfExtraDots();
  }

  lemma BmpOfExtraDots()
    ensures Bmp("a.b@c.d.e") == [97, 46, 98] + [AT] + [99, 46, 100] + [DOT] + [101]
  {
  }

  /** Nothing between "@" and the only ".": rejected. */
  lemma RejectsEmptyDomain()
    ensures !IsEmail(Bmp("a@.c"))
    ensures !IsEmail(Bmp("a@.cd"))
  {
    IsEmailMatchesPattern(Bmp("a@.c"));
    var s := Bmp("a@.cd");
    IsEmailMatchesPattern(s);
    forall a, d | 1 <= a && a + 2 <= d && d + 2 <= |s| ensures !(s[a] == AT && s[d] == DOT) {
      assert d == 3;
    }
  }

  /** Nothing after the only ".": rejected. */
  lemma RejectsEmptyTopLevel()
    ensures !IsEmail(Bmp("a@b."))
    ensures !IsEmail(Bmp("ab@c."))
  {
    IsEmailMatchesPattern(Bmp("a@b."));
    var s := Bmp("ab@c.");
    IsEmailMatchesPattern(s);
    forall a, d | 1 <= a && a + 2 <= d && d + 2 <= |s| ensures !(s[a] == AT && s[d] == DOT) {
      assert d == 3;
    }
  }

  /** Nothing before the only "@": rejected. */
  lemma RejectsEmptyLocalPart()
    ensures !IsEmail(Bmp("@b.c"))
    ensures !IsEmail(Bmp("@bc.d"))
  {
    IsEmailMatchesPattern(Bmp("@b.c"));
    var s := Bmp("@bc.d");
    IsEmailMatchesPattern(s);
    forall a, d | 1 <= a && a + 2 <= d && d + 2 <= |s| ensures !(s[a] == AT && s[d] == DOT) {
      assert a == 1;
    }
  }

  /** A space anywhere rejects the string, even between valid parts. */
  lemma RejectsWhiteSpace(x: JsString, y: JsString)
    ensures !IsEmail(x + [0x20] + y)
  {
    assert (x + [0x20] + y)[|x|] == 0x20;
  }
}

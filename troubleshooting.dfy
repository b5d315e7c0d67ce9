/**
 * The message the query validator shows for a card (troubleshooting
 * utils.ts, `formatErrorString`): the names of the inactive fields among
 * the card's errors, joined by ", " into "Field ... is inactive", or
 * undefined when there is no inactive-field error. Translation (`t`) is the
 * identity here.
 */
module Troubleshooting {
  import opened Wrappers

  /** One validation error of a card: its type and the field it concerns. */
  datatype CardError = CardError(errorType: string, field: string)

  const INACTIVE_FIELD: string := "inactive-field"

  predicate IsInactiveField(e: CardError)
  {
    e.errorType == INACTIVE_FIELD
  }

  /** `errors.filter(error => error.type === "inactive-field").map(field => field.field)`. */
  function InactiveFields(errors: seq<CardError>): (names: seq<string>)
    ensures |names| <= |errors|
  {
    if errors == [] then []
    else (if IsInactiveField(errors[0]) then [errors[0].field] else []) + InactiveFields(errors[1..])
  }

  /** `parts.join(sep)`. */
  function Join(parts: seq<string>, sep: string): (r: string)
    ensures |parts| == 1 ==> r == parts[0]
    ensures parts == [] ==> r == ""
  {
    if parts == [] then ""
    else if |parts| == 1 then parts[0]
    else parts[0] + sep + Join(parts[1..], sep)
  }

  /**
   * `formatErrorString(errors)`; `None` stands for undefined. The message is
   * given exactly when some error is an inactive-field error.
   */
  function FormatErrorString(errors: seq<CardError>): (r: Option<string>)
    ensures r.None? <==> forall e | e in errors :: !IsInactiveField(e)
    ensures r.Some? ==> r.value == "Field " + Join(InactiveFields(errors), ", ") + " is inactive"
  {
    NoNamesIffNoInactive(errors);
    var names := InactiveFields(errors);
    if |names| > 0 then Some("Field " + Join(names, ", ") + " is inactive") else None
  }

  /** Filtering distributes over concatenation: the names keep the errors' order. */
  lemma {:induction false} InactiveFieldsAppend(a: seq<CardError>, b: seq<CardError>)
    ensures InactiveFields(a + b) == InactiveFields(a) + InactiveFields(b)
  {
    if a == [] {
      assert a + b == b;
    } else {
      var head := if IsInactiveField(a[0]) then [a[0].field] else [];
      assert (a + b)[0] == a[0] && (a + b)[1..] == a[1..] + b;
      assert InactiveFields(a + b) == head + InactiveFields(a[1..] + b);
      InactiveFieldsAppend(a[1..], b);
      assert head + (InactiveFields(a[1..]) + InactiveFields(b)) == (head + InactiveFields(a[1..])) + InactiveFields(b);
    }
  }

  /**
   * The names are exactly the fields of the inactive-field errors, one per
   * such error, in order and with duplicates kept.
   */
  lemma {:induction false} InactiveFieldsAreTheInactiveErrors(errors: seq<CardError>)
    ensures |InactiveFields(errors)| == |Inactive(errors)|
    ensures forall i | 0 <= i < |Inactive(errors)| :: InactiveFields(errors)[i] == Inactive(errors)[i].field
  {
    if errors != [] {
      InactiveFieldsAreTheInactiveErrors(errors[1..]);
    }
  }

  /** The inactive-field errors, in order. */
  function Inactive(errors: seq<CardError>): (r: seq<CardError>)
    ensures |r| <= |errors|
  {
    if errors == [] then []
    else (if IsInactiveField(errors[0]) then [errors[0]] else []) + Inactive(errors[1..])
  }

  /** `Inactive` keeps exactly the inactive-field errors. */
  lemma {:induction false} InactiveMembers(errors: seq<CardError>, e: CardError)
    ensures e in Inactive(errors) <==> e in errors && IsInactiveField(e)
  {
    if errors != [] {
      InactiveMembers(errors[1..], e);
      assert errors == [errors[0]] + errors[1..];
    }
  }

  /** There are no names exactly when no error is an inactive-field error. */
  lemma {:induction false} NoNamesIffNoInactive(errors: seq<CardError>)
    ensures InactiveFields(errors) == [] <==> forall e | e in errors :: !IsInactiveField(e)
  {
    if errors != [] {
      NoNamesIffNoInactive(errors[1..]);
      assert forall e | e in errors :: e == errors[0] || e in errors[1..];
    }
  }

  /** Adding errors of any other type, before or after, leaves the message unchanged. */
  lemma OtherErrorsIgnored(errors: seq<CardError>, before: seq<CardError>, after: seq<CardError>)
    requires forall e | e in before + after :: !IsInactiveField(e)
    ensures FormatErrorString(before + errors + after) == FormatErrorString(errors)
  {
    InactiveFieldsAppend(before, errors);
    InactiveFieldsAppend(before + errors, after);
    assert InactiveFields(before) == [] by {
      forall e | e in before ensures !IsInactiveField(e) { assert e in before + after; }
      NoNamesIffNoInactive(before);
    }
    assert InactiveFields(after) == [] by {
      forall e | e in after ensures !IsInactiveField(e) { assert e in before + after; }
      NoNamesIffNoInactive(after);
    }
    assert [] + InactiveFields(errors) + [] == InactiveFields(errors);
  }

  /** Adding or removing errors of any other type anywhere in the list leaves the message unchanged. */
  lemma OtherErrorsIgnoredAnywhere(a: seq<CardError>, o: seq<CardError>, b: seq<CardError>)
    requires forall e | e in o :: !IsInactiveField(e)
    ensures FormatErrorString(a + o + b) == FormatErrorString(a + b)
  {
    InactiveFieldsAppend(a, o);
    InactiveFieldsAppend(a + o, b);
    InactiveFieldsAppend(a, b);
    NoNamesIffNoInactive(o);
    assert InactiveFields(a) + [] == InactiveFields(a);
  }

  /** Joining one more part appends the separator and the part. */
  lemma {:induction false} JoinAppend(parts: seq<string>, x: string, sep: string)
    requires parts != []
    ensures Join(parts + [x], sep) == Join(parts, sep) + sep + x
  {
    if |parts| == 1 {
      assert parts + [x] == [parts[0], x];
    } else {
      assert (parts + [x])[1..] == parts[1..] + [x];
      JoinAppend(parts[1..], x, sep);
    }
  }

  /** The joined names are as long as the names plus one separator between each two. */
  lemma {:induction false} JoinLength(parts: seq<string>, sep: string)
    requires parts != []
    ensures |Join(parts, sep)| == TotalLength(parts) + (|parts| - 1) * |sep|
  {
    if |parts| > 1 {
      JoinLength(parts[1..], sep);
    }
  }

  function TotalLength(parts: seq<string>): nat
  {
    if parts == [] then 0 else |parts[0]| + TotalLength(parts[1..])
  }

  /** Two inactive fields and an error of another type between them. */
  lemma TwoInactiveFields()
    ensures FormatErrorString([
              CardError(INACTIVE_FIELD, "TOTAL"),
              CardError("other", "PRODUCTS"),
              CardError(INACTIVE_FIELD, "TAX")]) == Some("Field TOTAL, TAX is inactive")
  {
    var errors := [
      CardError(INACTIVE_FIELD, "TOTAL"),
      CardError("other", "PRODUCTS"),
      CardError(INACTIVE_FIELD, "TAX")];
    assert InactiveFields(errors[2..]) == ["TAX"];
    assert InactiveFields(errors[1..]) == ["TAX"];
    assert InactiveFields(errors) == ["TOTAL", "TAX"];
    assert ["TOTAL", "TAX"][1..] == ["TAX"];
    assert Join(["TOTAL", "TAX"], ", ") == "TOTAL, TAX";
    assert "Field " + "TOTAL, TAX" + " is inactive" == "Field TOTAL, TAX is inactive";
  }
}

/**
 * The expiry helpers of the registry. A value that mentions `Stability`
 * (such as `2027(Stability)`) is read by its first four-digit year and
 * compared with the current year; any other value is handed to the
 * platform's date parser, whose verdict is a parameter here.
 */
module Dates {
  import opened Text

  /** What `new Date(value)` made of a non-stability value: not a date, or a
      date with its year, whether today is past it, and its locale display. */
  datatype ParsedDate = InvalidDate | ValidDate(year: int, beforeToday: bool, display: string)

  predicate IsStability(s: string) {
    Contains(s, "Stability")
  }

  /** The year of a stability value, as `parseInt` reads the first
      four-digit run. */
  function StabilityYear(s: string): (r: Option<nat>)
    ensures r.Some? <==> FirstYear(s).Some?
    ensures r.Some? ==> r.value <= 9999
  {
    match FirstYear(s)
    case None => None
    case Some(y) =>
      DigitsBound(y);
      assert |y| == 4 && Pow10(4) == 10000;
      Some(DigitsValue(y))
  }

  lemma {:induction false} DigitsBound(y: string)
    requires forall i :: 0 <= i < |y| ==> IsDigit(y[i])
    ensures DigitsValue(y) < Pow10(|y|)
  {
    if y != [] {
      DigitsBound(y[..|y| - 1]);
    }
  }

  function Pow10(n: nat): nat {
    if n == 0 then 1 else 10 * Pow10(n - 1)
  }

  /** `formatDate`: `-` for an empty value, the year of a stability value,
      the locale display of a date, and otherwise the first year or the
      value itself. */
  function FormatDate(value: Field, parsed: ParsedDate): (r: string)
    ensures !Truthy(value) ==> r == "-"
    ensures Truthy(value) && IsStability(value.s) ==>
              r == (if FirstYear(value.s).Some? then FirstYear(value.s).value else value.s)
  {
    if !Truthy(value) then "-"
    else if IsStability(value.s) then
      match FirstYear(value.s) case Some(y) => y case None => value.s
    else match parsed
      case ValidDate(_, _, display) => display
      case InvalidDate => match FirstYear(value.s) case Some(y) => y case None => value.s
  }

  /** `isExpired`: a stability value is expired once the current year is
      past its year; a date once today is past it. */
  function IsExpired(value: Field, parsed: ParsedDate, currentYear: int): bool {
    if !Truthy(value) then false
    else if IsStability(value.s) then
      match StabilityYear(value.s) case Some(y) => currentYear > y case None => false
    else match parsed
      case ValidDate(_, beforeToday, _) => beforeToday
      case InvalidDate => false
  }

  /** `isExpiringThisYear`: the year of the value is at most the current
      year. */
  function IsExpiringThisYear(value: Field, parsed: ParsedDate, currentYear: int): bool {
    if !Truthy(value) then false
    else if IsStability(value.s) then
      match StabilityYear(value.s) case Some(y) => y <= currentYear case None => false
    else match parsed
      case ValidDate(year, _, _) => year <= currentYear
      case InvalidDate => false
  }

  /** The clock reading is consistent: a date today is past lies in this
      year or earlier. */
  predicate Consistent(parsed: ParsedDate, currentYear: int) {
    parsed.ValidDate? && parsed.beforeToday ==> parsed.year <= currentYear
  }

  /** Whatever is expired counts as expiring this year. */
  lemma ExpiredIsExpiring(value: Field, parsed: ParsedDate, currentYear: int)
    requires Consistent(parsed, currentYear)
    ensures IsExpired(value, parsed, currentYear) ==> IsExpiringThisYear(value, parsed, currentYear)
  {
  }

  /** A value expiring this year stays so in later years, and so does an
      expired stability value. */
  lemma ExpiringMonotone(value: Field, parsed: ParsedDate, currentYear: int, later: int)
    requires currentYear <= later
    ensures IsExpiringThisYear(value, parsed, currentYear) ==> IsExpiringThisYear(value, parsed, later)
    ensures IsStability(OrEmpty(value)) && IsExpired(value, parsed, currentYear) ==> IsExpired(value, parsed, later)
  {
  }

  /** A stability value without a year is never expired nor expiring, and
      shows as itself. */
  lemma StabilityWithoutYear(s: string, parsed: ParsedDate, currentYear: int)
    requires s != "" && IsStability(s) && FirstYear(s).None?
    ensures !IsExpired(Present(s), parsed, currentYear)
    ensures !IsExpiringThisYear(Present(s), parsed, currentYear)
    ensures FormatDate(Present(s), parsed) == s
  {
  }

  lemma YearString(y: string)
    requires |y| == 4 && forall i :: 0 <= i < 4 ==> IsDigit(y[i])
    ensures FirstYear(y) == Some(y)
  {
    assert YearAt(y, 0);
    assert y[0..4] == y;
  }

  /** A year stored as the report reconciler stores it, `<year>(Stability)`,
      shows as that year and is expired exactly when the current year is
      past it. */
  lemma StabilityRoundTrip(y: string, parsed: ParsedDate, currentYear: int)
    requires |y| == 4 && forall i :: 0 <= i < 4 ==> IsDigit(y[i])
    ensures FormatDate(Present(y + "(Stability)"), parsed) == y
    ensures IsExpired(Present(y + "(Stability)"), parsed, currentYear) <==> currentYear > DigitsValue(y)
    ensures IsExpiringThisYear(Present(y + "(Stability)"), parsed, currentYear) <==> DigitsValue(y) <= currentYear
  {
    var s := y + "(Stability)";
    assert s[5..14] == "Stability";
    assert OccursAt(s, "Stability", 5);
    assert YearAt(s, 0);
    assert s[0..4] == y;
  }
}

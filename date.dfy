/**
 * The date and runtime helpers. The calendar work (`new Date`, `toLocaleDateString`,
 * `getFullYear`) belongs to the JavaScript runtime and is passed in as functions; what the
 * helpers add themselves is the guard against a missing date, the country suffix, and the
 * hour/minute arithmetic of a runtime.
 */
module DateFormat {
  import opened Wrappers
  import JsText

  /** `a % b` in JavaScript for a positive `b`: the remainder takes the sign of `a`. */
  function JsRemainder(a: int, b: int): (r: int)
    requires b > 0
    ensures a >= 0 ==> 0 <= r < b
    ensures a < 0 ==> -b < r <= 0
    ensures a >= 0 ==> a == b * (a / b) + r
    ensures a < 0 ==> a == -(b * ((-a) / b)) + r
  {
    if a >= 0 then a % b else -((-a) % b)
  }

  /** `Math.floor(a / 60)`; Dafny's division by a positive number already rounds down. */
  function FloorDiv(a: int, b: int): (q: int)
    requires b > 0
    ensures q * b <= a < q * b + b
  {
    a / b
  }

  /**
   * `formatRuntime`: nothing for a missing or zero runtime; otherwise the whole hours followed
   * by `h `, left out when there are none, and the remaining minutes followed by `m`.
   */
  function FormatRuntime(minutes: Option<int>): (r: string)
    ensures minutes.None? || minutes == Some(0) ==> r == ""
    ensures minutes.Some? && minutes.value != 0 ==> |r| >= 2 && r[|r| - 1] == 'm'
  {
    if minutes.None? || minutes.value == 0 then ""
    else RuntimeText(FloorDiv(minutes.value, 60), JsRemainder(minutes.value, 60))
  }

  /** The text for whole hours `h` and minutes `m`: the hour part only when there are hours. */
  function RuntimeText(h: int, m: int): (r: string)
    ensures |r| >= 2 && r[|r| - 1] == 'm'
    ensures h <= 0 ==> r == JsText.IntToString(m) + "m"
    ensures h > 0 ==> r == JsText.NatToDecimal(h) + "h " + JsText.IntToString(m) + "m"
  {
    (if h > 0 then JsText.IntToString(h) + "h " else "") + JsText.IntToString(m) + "m"
  }

  /** For a positive runtime the hours and minutes recombine to it, the minutes below 60. */
  lemma RuntimeParts(minutes: int)
    requires minutes > 0
    ensures var h, m := FloorDiv(minutes, 60), JsRemainder(minutes, 60);
      60 * h + m == minutes && 0 <= m < 60 && h >= 0
  {
  }

  /** A runtime of `h` hours and `m` minutes, `h` at least 1, reads `<h>h <m>m`. */
  lemma RuntimeWithHours(minutes: int, h: int, m: int)
    requires minutes == 60 * h + m && h > 0 && 0 <= m < 60
    ensures FormatRuntime(Some(minutes)) == JsText.NatToDecimal(h) + "h " + JsText.NatToDecimal(m) + "m"
  {
    DivideByHour(minutes, h, m);
    assert FloorDiv(minutes, 60) == h && JsRemainder(minutes, 60) == m;
    assert JsText.IntToString(m) == JsText.NatToDecimal(m);
  }

  /** Whole hours and the minutes left over are the only way to write a non-negative runtime. */
  lemma DivideByHour(minutes: int, h: int, m: int)
    requires minutes == 60 * h + m && 0 <= m < 60
    ensures minutes / 60 == h && minutes % 60 == m
  {
  }

  /** A runtime under an hour has no hour part. */
  lemma RuntimeUnderAnHour(minutes: int)
    requires 0 < minutes < 60
    ensures FormatRuntime(Some(minutes)) == JsText.NatToDecimal(minutes) + "m"
  {
    DivideByHour(minutes, 0, minutes);
    assert FloorDiv(minutes, 60) == 0 && JsRemainder(minutes, 60) == minutes;
    assert JsText.IntToString(minutes) == JsText.NatToDecimal(minutes);
  }

  /** A negative runtime keeps only the minutes, with the sign JavaScript's `%` gives them. */
  lemma RuntimeNegative(minutes: int)
    requires minutes < 0
    ensures FormatRuntime(Some(minutes)) == JsText.IntToString(-((-minutes) % 60)) + "m"
  {
    assert FloorDiv(minutes, 60) < 0;
    assert JsRemainder(minutes, 60) == -((-minutes) % 60);
  }

  /** 103 minutes read `1h 43m`. */
  lemma RuntimeExampleHourAndMinutes()
    ensures FormatRuntime(Some(103)) == "1h 43m"
  {
    RuntimeWithHours(103, 1, 43);
    assert JsText.NatToDecimal(1) == "1";
    assert JsText.NatToDecimal(43) == JsText.NatToDecimal(4) + "3";
  }

  /** 120 minutes read `2h 0m`: the minutes are never left out. */
  lemma RuntimeExampleWholeHours()
    ensures FormatRuntime(Some(120)) == "2h 0m"
  {
    RuntimeWithHours(120, 2, 0);
    assert JsText.NatToDecimal(2) == "2" && JsText.NatToDecimal(0) == "0";
  }

  /** 45 minutes read `45m`. */
  lemma RuntimeExampleMinutes()
    ensures FormatRuntime(Some(45)) == "45m"
  {
    RuntimeUnderAnHour(45);
    assert JsText.NatToDecimal(45) == JsText.NatToDecimal(4) + "5";
  }

  /**
   * `formatDate`: a missing or empty date gives nothing; otherwise the date in words, which
   * `longDate` stands for (`new Date` followed by `toLocaleDateString`).
   */
  function FormatDate(dateString: Option<string>, longDate: string -> string): (r: string)
    ensures !JsText.Truthy(dateString) ==> r == ""
    ensures JsText.Truthy(dateString) ==> r == longDate(dateString.value)
  {
    if !JsText.Truthy(dateString) then "" else longDate(dateString.value)
  }

  /** `String(n)` for the result of `getFullYear`, which is `NaN` for an invalid date. */
  function YearText(year: Option<int>): (r: string)
    ensures |r| > 0
  {
    if year.None? then "NaN" else JsText.IntToString(year.value)
  }

  /** `getYear`: a missing or empty date gives nothing; otherwise the year as a string. */
  function GetYear(dateString: Option<string>, fullYear: string -> Option<int>): (r: string)
    ensures !JsText.Truthy(dateString) ==> r == ""
    ensures JsText.Truthy(dateString) ==> r == YearText(fullYear(dateString.value)) && r != ""
  {
    if !JsText.Truthy(dateString) then "" else YearText(fullYear(dateString.value))
  }

  /** The default parameter: `US` when no country code is passed; an empty code is kept. */
  function CountryOrDefault(countryCode: Option<string>): (r: string)
    ensures countryCode.None? ==> r == "US"
    ensures countryCode.Some? ==> r == countryCode.value
  {
    countryCode.GetOr("US")
  }

  /**
   * `formatReleaseDate`: a missing or empty date gives nothing; otherwise the date in digits
   * (`shortDate`) followed by the country code in parentheses.
   */
  function FormatReleaseDate(dateString: Option<string>, countryCode: Option<string>, shortDate: string -> string): (r: string)
    ensures !JsText.Truthy(dateString) ==> r == ""
    ensures JsText.Truthy(dateString) ==>
      var suffix := " (" + CountryOrDefault(countryCode) + ")";
      |suffix| <= |r| && r[|r| - |suffix|..] == suffix && r[..|r| - |suffix|] == shortDate(dateString.value)
  {
    if !JsText.Truthy(dateString) then ""
    else shortDate(dateString.value) + " (" + CountryOrDefault(countryCode) + ")"
  }
}

/**
 * The handful of JavaScript string and array primitives the application relies on,
 * written out over sequences. A JavaScript string is a sequence of UTF-16 code units;
 * here it is a `string` whose characters each stand for one code unit.
 */
module JsText {
  import opened Wrappers

  /** `s[i..i+|m|] == m`: the text `m` occurs in `s` at index `i`. */
  predicate OccursAt<T(==)>(s: seq<T>, m: seq<T>, i: int) {
    0 <= i && i + |m| <= |s| && s[i..i + |m|] == m
  }

  /** How `slice` turns a possibly negative or too large index into a position. */
  function SliceIndex(len: nat, k: int): (r: nat)
    ensures r <= len
  {
    if k < 0 then (if len + k < 0 then 0 else len + k)
    else if k > len then len
    else k
  }

  /** `s.slice(start, end)` for strings and arrays, negative indices counting from the end. */
  function Slice<T>(s: seq<T>, start: int, end: int): (r: seq<T>)
    ensures |r| <= |s|
    ensures 0 <= start <= end <= |s| ==> r == s[start..end]
  {
    var a := SliceIndex(|s|, start);
    var b := SliceIndex(|s|, end);
    if a < b then s[a..b] else []
  }

  /** `s.slice(0, n)`: the first `n` elements, or all of them when there are fewer. */
  function Take<T>(s: seq<T>, n: nat): (r: seq<T>)
    ensures |r| == if n <= |s| then n else |s|
    ensures r <= s
  {
    if n <= |s| then s[..n] else s
  }

  /**
   * `s.indexOf(m, i)` for a start index `i >= 0`: the first occurrence of `m` at or after `i`,
   * or -1 when there is none.
   */
  function IndexOfFrom<T(==)>(s: seq<T>, m: seq<T>, i: nat): (r: int)
    decreases |s| - i
    ensures r == -1 || (i <= r && OccursAt(s, m, r))
    ensures r == -1 ==> forall j :: i <= j ==> !OccursAt(s, m, j)
    ensures r != -1 ==> forall j :: i <= j < r ==> !OccursAt(s, m, j)
  {
    if i + |m| > |s| then -1
    else if s[i..i + |m|] == m then i
    else IndexOfFrom(s, m, i + 1)
  }

  /** `s.lastIndexOf(m)`: the last occurrence of `m` in `s`, or -1 when there is none. */
  function LastIndexOf<T(==)>(s: seq<T>, m: seq<T>): (r: int)
    ensures r == -1 || OccursAt(s, m, r)
    ensures r == -1 ==> forall j :: !OccursAt(s, m, j)
    ensures forall j :: r < j ==> !OccursAt(s, m, j)
  {
    if |m| > |s| then -1 else LastIndexAtOrBelow(s, m, |s| - |m|)
  }

  /** The last occurrence of `m` that starts at or before `i`. */
  function LastIndexAtOrBelow<T(==)>(s: seq<T>, m: seq<T>, i: int): (r: int)
    requires i + |m| <= |s|
    decreases i + 1
    ensures r == -1 || (r <= i && OccursAt(s, m, r))
    ensures r == -1 ==> forall j :: j <= i ==> !OccursAt(s, m, j)
    ensures forall j :: r < j <= i ==> !OccursAt(s, m, j)
  {
    if i < 0 then -1
    else if s[i..i + |m|] == m then i
    else LastIndexAtOrBelow(s, m, i - 1)
  }

  /** JavaScript truthiness of an optional string: present and not empty. */
  predicate Truthy(o: Option<string>) {
    o.Some? && o.value != ""
  }

  /** `a || b` on optional strings. */
  function Or(a: Option<string>, b: Option<string>): (r: Option<string>)
    ensures Truthy(a) ==> r == a
    ensures !Truthy(a) ==> r == b
  {
    if Truthy(a) then a else b
  }

  /** `a || fallback` where the fallback is a string. */
  function OrElse(a: Option<string>, fallback: string): (r: string)
    ensures Truthy(a) ==> r == a.value
    ensures !Truthy(a) ==> r == fallback
  {
    if Truthy(a) then a.value else fallback
  }

  /** A JavaScript line terminator, the characters that `.` in a regular expression refuses. */
  predicate IsLineTerminator(c: char) {
    c == '\n' || c == '\r' || c == '\U{2028}' || c == '\U{2029}'
  }

  /** The characters `String.prototype.trim` removes: white space and line terminators. */
  predicate IsJsWhiteSpace(c: char) {
    c == '\t' || c == '\U{000B}' || c == '\U{000C}' || c == ' ' || c == '\U{00A0}'
    || c == '\U{1680}' || ('\U{2000}' <= c <= '\U{200A}') || c == '\U{202F}'
    || c == '\U{205F}' || c == '\U{3000}' || c == '\U{FEFF}' || IsLineTerminator(c)
  }

  /** `!s.trim()`: after trimming, nothing is left. */
  predicate IsBlank(s: string) {
    forall i :: 0 <= i < |s| ==> IsJsWhiteSpace(s[i])
  }

  predicate IsDigit(c: char) {
    '0' <= c <= '9'
  }

  function DigitChar(d: nat): (c: char)
    requires d < 10
    ensures IsDigit(c)
  {
    "0123456789"[d]
  }

  /** The decimal digits of a natural number, as `String(n)` writes them. */
  function NatToDecimal(n: nat): (r: string)
    ensures |r| > 0
    ensures forall i :: 0 <= i < |r| ==> IsDigit(r[i])
    ensures n > 0 ==> r[0] != '0'
  {
    if n < 10 then [DigitChar(n)] else NatToDecimal(n / 10) + [DigitChar(n % 10)]
  }

  /** `String(i)` for an integer. */
  function IntToString(i: int): (r: string)
    ensures |r| > 0
    ensures i >= 0 ==> r == NatToDecimal(i)
    ensures i < 0 ==> r == "-" + NatToDecimal(-i)
  {
    if i < 0 then "-" + NatToDecimal(-i) else NatToDecimal(i)
  }

  /** The value of a string of decimal digits. */
  function DecimalValue(s: string): (n: nat)
    requires forall i :: 0 <= i < |s| ==> IsDigit(s[i])
  {
    if s == [] then 0
    else
      assert IsDigit(s[|s| - 1]);
      10 * DecimalValue(s[..|s| - 1]) + (s[|s| - 1] as int - '0' as int)
  }

  /** Reading back the digits `NatToDecimal` writes gives the number again. */
  lemma {:induction false} DecimalRoundTrip(n: nat)
    ensures DecimalValue(NatToDecimal(n)) == n
  {
    if n >= 10 {
      var d := NatToDecimal(n / 10);
      DecimalRoundTrip(n / 10);
      assert NatToDecimal(n) == d + [DigitChar(n % 10)];
      assert (d + [DigitChar(n % 10)])[..|d|] == d;
    }
  }

  /**
   * `Number(s)` for the strings the application passes to it: a string of decimal digits gives
   * its value, `""` gives 0, and anything else is `NaN` (`None`).
   */
  function NumberOf(s: string): (r: Option<int>)
    ensures s == "" ==> r == Some(0)
    ensures r.Some? <==> forall i :: 0 <= i < |s| ==> IsDigit(s[i])
    ensures r.Some? ==> r.value == DecimalValue(s)
  {
    if forall i :: 0 <= i < |s| ==> IsDigit(s[i]) then Some(DecimalValue(s)) else None
  }

  /** `Number(String(n))` is `n` for every natural number `n`. */
  lemma NumberOfRoundTrip(n: nat)
    ensures NumberOf(NatToDecimal(n)) == Some(n)
  {
    DecimalRoundTrip(n);
  }
}

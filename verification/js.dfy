/** The few JavaScript runtime behaviours the popup relies on, stated in
    Dafny's terms: optional (`undefined`-able) values, integer numbers that
    may become `NaN`, the truncating `%` operator, `String.toLowerCase`
    (ASCII letters only), `String.includes`, truthiness, and the decimal
    rendering of a number inside a template literal.
 */
module Js {

  /** A value that may be `undefined`. */
  datatype Option<+T> = None | Some(value: T) {
    /** The value if there is one, else the fallback (`value ?? fallback`). */
    function GetOr(fallback: T): T {
      match this
      case Some(v) => v
      case None => fallback
    }
  }

  /** A JavaScript number as the popup uses it: an integer, or `NaN`. */
  datatype Num = Int(v: int) | NaN

  /** `a + k` on a number; `NaN` absorbs. */
  function Add(a: Num, k: int): Num {
    match a
    case NaN => NaN
    case Int(x) => Int(x + k)
  }

  function Abs(n: int): int {
    if n < 0 then -n else n
  }

  /** The quotient `x / n` truncated toward zero (`Math.trunc(x / n)`). */
  function TruncQuot(x: int, n: int): int
    requires n != 0
  {
    var q := Abs(x) / Abs(n);
    if (x < 0) == (n < 0) then q else -q
  }

  /** `a % n`: `NaN` when either side is `NaN` or the divisor is zero;
      otherwise the remainder left by the truncated quotient, which carries
      the sign of the dividend (unlike Dafny's Euclidean `%`). */
  function Rem(a: Num, n: int): (r: Num)
    ensures r.NaN? <==> a.NaN? || n == 0
    ensures r.Int? ==> a.v == TruncQuot(a.v, n) * n + r.v
    ensures r.Int? && 0 <= a.v ==> 0 <= r.v < Abs(n)
    ensures r.Int? && a.v < 0 ==> -Abs(n) < r.v <= 0
  {
    match a
    case NaN => NaN
    case Int(x) =>
      if n == 0 then NaN
      else if 0 <= x then Int(x % Abs(n))
      else Int(-((-x) % Abs(n)))
  }

  /** For a dividend below twice a positive divisor, `%` subtracts the
      divisor at most once. */
  lemma RemBelowTwice(x: int, n: int)
    requires 0 < n && 0 <= x < 2 * n
    ensures Rem(Int(x), n) == Int(if x < n then x else x - n)
  {
    if x < n {
      assert x % n == x;
    } else {
      assert x == 1 * n + (x - n);
      assert x % n == x - n;
    }
  }

  /** Truthiness of an optional number: `undefined` and `0` are falsy. */
  predicate TruthyInt(x: Option<int>) {
    x.Some? && x.value != 0
  }

  /** Truthiness of an optional string: `undefined` and `""` are falsy. */
  predicate TruthyString(s: Option<string>) {
    s.Some? && s.value != ""
  }

  predicate IsUpper(c: char) {
    'A' <= c <= 'Z'
  }

  function LowerChar(c: char): char {
    if IsUpper(c) then (c as int + 32) as char else c
  }

  /** `s.toLowerCase()`, restricted to the ASCII letters. */
  function ToLowerCase(s: string): (r: string)
    ensures |r| == |s|
    ensures forall i :: 0 <= i < |s| ==> r[i] == LowerChar(s[i])
  {
    seq(|s|, i requires 0 <= i < |s| => LowerChar(s[i]))
  }

  /** Lower-casing leaves no upper-case letter behind and is idempotent. */
  lemma ToLowerCaseIdempotent(s: string)
    ensures forall i :: 0 <= i < |s| ==> !IsUpper(ToLowerCase(s)[i])
    ensures ToLowerCase(ToLowerCase(s)) == ToLowerCase(s)
  {
    var l := ToLowerCase(s);
    assert forall i :: 0 <= i < |s| ==> !IsUpper(l[i]);
    assert forall i :: 0 <= i < |l| ==> ToLowerCase(l)[i] == l[i];
  }

  /** `needle` occurs in `hay` starting at position `i`. */
  ghost predicate OccursAt(hay: string, needle: string, i: int) {
    0 <= i && i + |needle| <= |hay| && hay[i..i + |needle|] == needle
  }

  /** `hay.includes(needle)`: some position of `hay` starts a copy of
      `needle` (the empty string occurs in every string). */
  function Includes(hay: string, needle: string): (r: bool)
    ensures r <==> exists i :: OccursAt(hay, needle, i)
    decreases |hay|
  {
    if |hay| < |needle| then
      assert forall i :: !OccursAt(hay, needle, i);
      false
    else if hay[..|needle|] == needle then
      assert OccursAt(hay, needle, 0);
      true
    else
      var rest := hay[1..];
      assert !OccursAt(hay, needle, 0);
      assert (exists i :: OccursAt(hay, needle, i)) ==> exists i :: OccursAt(rest, needle, i) by {
        if j :| OccursAt(hay, needle, j) {
          OccursAtTail(hay, needle, j);
        }
      }
      assert (exists i :: OccursAt(rest, needle, i)) ==> exists i :: OccursAt(hay, needle, i) by {
        if j :| OccursAt(rest, needle, j) {
          OccursAtTail(hay, needle, j + 1);
        }
      }
      Includes(rest, needle)
  }

  /** An occurrence past the first position is an occurrence in the tail,
      one position earlier. */
  lemma OccursAtTail(hay: string, needle: string, i: int)
    requires 1 <= i && 0 < |hay|
    ensures OccursAt(hay, needle, i) <==> OccursAt(hay[1..], needle, i - 1)
  {
    if i + |needle| <= |hay| {
      assert hay[i..i + |needle|] == hay[1..][i - 1..i - 1 + |needle|];
    }
  }

  predicate IsDigit(c: char) {
    '0' <= c <= '9'
  }

  function DigitChar(d: nat): (c: char)
    requires d < 10
    ensures IsDigit(c)
  {
    ('0' as int + d) as char
  }

  /** `${n}` for a non-negative integer: its decimal digits, most
      significant first, with no leading zero. */
  function NumberToString(n: nat): (r: string)
    ensures 1 <= |r|
    ensures forall i :: 0 <= i < |r| ==> IsDigit(r[i])
    ensures r[0] == '0' ==> n == 0
  {
    if n < 10 then [DigitChar(n)] else NumberToString(n / 10) + [DigitChar(n % 10)]
  }

  /** The value of a string of decimal digits (the reading direction of
      `NumberToString`). */
  function DigitsValue(s: string): int
    requires forall i :: 0 <= i < |s| ==> IsDigit(s[i])
  {
    if |s| == 0 then 0
    else DigitsValue(s[..|s| - 1]) * 10 + (s[|s| - 1] as int - '0' as int)
  }

  /** Reading back the decimal rendering gives the number. */
  lemma {:induction false} NumberToStringRoundTrip(n: nat)
    ensures DigitsValue(NumberToString(n)) == n
  {
    var s := NumberToString(n);
    if n >= 10 {
      NumberToStringRoundTrip(n / 10);
      assert s[..|s| - 1] == NumberToString(n / 10);
    }
  }

  /** Distinct numbers render as distinct strings. */
  lemma NumberToStringInjective(a: nat, b: nat)
    ensures NumberToString(a) == NumberToString(b) ==> a == b
  {
    NumberToStringRoundTrip(a);
    NumberToStringRoundTrip(b);
  }
}

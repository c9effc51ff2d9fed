/**
 * The JavaScript string operations the badge code relies on, over `string`
 * (a sequence of Unicode characters): `split` on one character, `parseInt`
 * with radix 10 and 16, number-to-string conversion, `toLowerCase`
 * (ASCII letters only), `includes`, `startsWith`, `trim`, and the
 * truthiness of an optional string.
 */
module Strings {
  import opened Wrappers

  // ---------------------------------------------------------------------
  // Truthiness and template interpolation of optional strings

  /** `!!s` for a value of type `string | undefined`: present and non-empty. */
  predicate Truthy(s: Option<string>) {
    s.Some? && s.value != ""
  }

  /** `${s}` for a value of type `string | undefined`. */
  function Interpolate(s: Option<string>): string {
    match s
    case Some(v) => v
    case None => "undefined"
  }

  // ---------------------------------------------------------------------
  // String.prototype.split with a one-character separator

  /**
   * `s.split(c)`: the pieces between occurrences of `c`, empty pieces
   * included, so that there is always one more piece than separators.
   */
  function Split(s: string, c: char): (r: seq<string>)
    ensures |r| >= 1
    ensures forall i :: 0 <= i < |r| ==> c !in r[i]
    decreases |s|
  {
    if s == [] then [[]]
    else
      var rest := Split(s[1..], c);
      if s[0] == c then [[]] + rest
      else [[s[0]] + rest[0]] + rest[1..]
  }

  lemma {:induction false} SplitWithoutSeparator(s: string, c: char)
    requires c !in s
    ensures Split(s, c) == [s]
    decreases |s|
  {
    if s != [] {
      assert c !in s[1..] by {
        forall k | 0 <= k < |s[1..]| ensures s[1..][k] != c {
          assert s[1..][k] == s[k + 1];
        }
      }
      SplitWithoutSeparator(s[1..], c);
      assert [s[0]] + s[1..] == s;
    }
  }

  /** Splitting at a separator in the middle splits the two sides independently. */
  lemma {:induction false} SplitAround(a: string, b: string, c: char)
    ensures Split(a + [c] + b, c) == Split(a, c) + Split(b, c)
    decreases |a|
  {
    var s := a + [c] + b;
    if a == [] {
      assert s[1..] == b;
    } else {
      assert s[1..] == a[1..] + [c] + b;
      SplitAround(a[1..], b, c);
    }
  }

  /** `x:y:z` splits on `:` into the three parts when none of them holds a `:`. */
  lemma SplitThree(x: string, y: string, z: string, c: char)
    requires c !in x && c !in y && c !in z
    ensures Split(x + [c] + y + [c] + z, c) == [x, y, z]
  {
    SplitAround(x + [c] + y, z, c);
    SplitAround(x, y, c);
    SplitWithoutSeparator(x, c);
    SplitWithoutSeparator(y, c);
    SplitWithoutSeparator(z, c);
  }

  /** `x<c>y` splits on `c` into the two parts when neither holds a `c`. */
  lemma SplitTwo(x: string, y: string, c: char)
    requires c !in x && c !in y
    ensures Split(x + [c] + y, c) == [x, y]
  {
    SplitAround(x, y, c);
    SplitWithoutSeparator(x, c);
    SplitWithoutSeparator(y, c);
  }

  // ---------------------------------------------------------------------
  // Decimal digits, parseInt(s, 10) and number-to-string

  predicate IsDigit(c: char) {
    '0' <= c <= '9'
  }

  predicate AllDigits(s: string) {
    forall i :: 0 <= i < |s| ==> IsDigit(s[i])
  }

  /** The longest prefix of `s` made of decimal digits. */
  function LeadingDigits(s: string): (r: string)
    ensures |r| <= |s| && r == s[..|r|] && AllDigits(r)
    ensures |r| < |s| ==> !IsDigit(s[|r|])
  {
    if s == [] || !IsDigit(s[0]) then [] else [s[0]] + LeadingDigits(s[1..])
  }

  /** The value of a string of decimal digits, most significant first. */
  function DigitsValue(s: string): nat
    requires AllDigits(s)
  {
    if s == [] then 0
    else DigitsValue(s[..|s| - 1]) * 10 + (s[|s| - 1] as int - '0' as int)
  }

  /**
   * `parseInt(s, 10)`: an optional sign followed by the leading run of
   * digits; `None` stands for `NaN` (no digit after the sign).
   */
  function ParseDecimal(s: string): Option<int> {
    var negative := |s| > 0 && s[0] == '-';
    var body := if |s| > 0 && (s[0] == '-' || s[0] == '+') then s[1..] else s;
    var digits := LeadingDigits(body);
    var value: int := DigitsValue(digits);
    if digits == [] then None
    else if negative then Some(-value)
    else Some(value)
  }

  function DigitChar(d: nat): (c: char)
    requires d < 10
    ensures IsDigit(c) && c as int - '0' as int == d
  {
    ('0' as int + d) as char
  }

  /** The decimal representation of a natural number, without leading zeros. */
  function NatToDecimal(n: nat): (r: string)
    ensures |r| >= 1 && AllDigits(r)
  {
    if n < 10 then [DigitChar(n)] else NatToDecimal(n / 10) + [DigitChar(n % 10)]
  }

  /** `${n}` for an integer number. */
  function IntToDecimal(n: int): (r: string)
    ensures |r| >= 1 && ':' !in r && 'x' !in r && ' ' !in r
  {
    var r := if n < 0 then "-" + NatToDecimal(-n) else NatToDecimal(n);
    assert forall i :: 0 <= i < |r| ==> r[i] == '-' || IsDigit(r[i]);
    r
  }

  lemma {:induction false} NatToDecimalValue(n: nat)
    ensures DigitsValue(NatToDecimal(n)) == n
  {
    if n >= 10 {
      NatToDecimalValue(n / 10);
      var s := NatToDecimal(n);
      assert s[..|s| - 1] == NatToDecimal(n / 10);
    }
  }

  lemma {:induction false} LeadingDigitsOfDigits(s: string)
    requires AllDigits(s)
    ensures LeadingDigits(s) == s
  {
  }

  /** Number-to-string followed by `parseInt(_, 10)` gives the number back. */
  lemma ParseIntToDecimal(n: int)
    ensures ParseDecimal(IntToDecimal(n)) == Some(n)
  {
    var m: nat := if n < 0 then -n else n;
    var digits := NatToDecimal(m);
    NatToDecimalValue(m);
    LeadingDigitsOfDigits(digits);
    if n < 0 {
      var s := "-" + digits;
      assert s[1..] == digits;
    } else {
      assert IsDigit(digits[0]);
    }
  }

  // ---------------------------------------------------------------------
  // Hexadecimal digits and parseInt(s, 16)

  predicate IsHexDigit(c: char) {
    IsDigit(c) || 'a' <= c <= 'f' || 'A' <= c <= 'F'
  }

  predicate AllHexDigits(s: string) {
    forall i :: 0 <= i < |s| ==> IsHexDigit(s[i])
  }

  function HexDigitValue(c: char): (v: nat)
    requires IsHexDigit(c)
    ensures v < 16
  {
    if IsDigit(c) then c as int - '0' as int
    else if 'a' <= c <= 'f' then c as int - 'a' as int + 10
    else c as int - 'A' as int + 10
  }

  /** The longest prefix of `s` made of hexadecimal digits. */
  function LeadingHexDigits(s: string): (r: string)
    ensures |r| <= |s| && r == s[..|r|] && AllHexDigits(r)
  {
    if s == [] || !IsHexDigit(s[0]) then [] else [s[0]] + LeadingHexDigits(s[1..])
  }

  function HexValue(s: string): nat
    requires AllHexDigits(s)
  {
    if s == [] then 0 else HexValue(s[..|s| - 1]) * 16 + HexDigitValue(s[|s| - 1])
  }

  /**
   * `parseInt(s, 16)`: an optional sign, an optional `0x`/`0X` prefix, then
   * the leading run of hexadecimal digits; `None` stands for `NaN`.
   */
  function ParseHex(s: string): Option<int> {
    var negative := |s| > 0 && s[0] == '-';
    var signless := if |s| > 0 && (s[0] == '-' || s[0] == '+') then s[1..] else s;
    var body := if |signless| >= 2 && signless[0] == '0' && (signless[1] == 'x' || signless[1] == 'X')
                then signless[2..] else signless;
    var digits := LeadingHexDigits(body);
    var value: int := HexValue(digits);
    if digits == [] then None
    else if negative then Some(-value)
    else Some(value)
  }

  // ---------------------------------------------------------------------
  // Case, containment, prefixes and white space

  function LowerChar(c: char): char {
    if 'A' <= c <= 'Z' then (c as int - 'A' as int + 'a' as int) as char else c
  }

  /** `s.toLowerCase()` restricted to ASCII letters. */
  function Lower(s: string): string {
    seq(|s|, i requires 0 <= i < |s| => LowerChar(s[i]))
  }

  /** `s.startsWith(p)`. */
  predicate StartsWith(s: string, p: string) {
    |p| <= |s| && s[..|p|] == p
  }

  /** `s.includes(t)`: `t` occurs in `s` at some position. */
  predicate Includes(s: string, t: string)
    decreases |s|
  {
    StartsWith(s, t) || (|s| > 0 && Includes(s[1..], t))
  }

  /** A non-empty `t` occurs in `s` only if its first character does. */
  lemma {:induction false} IncludesHead(s: string, t: string)
    requires |t| > 0
    ensures Includes(s, t) ==> t[0] in s
    decreases |s|
  {
    if Includes(s, t) {
      if StartsWith(s, t) {
        assert s[0] == t[0];
      } else {
        IncludesHead(s[1..], t);
        assert t[0] in s[1..];
        assert s == [s[0]] + s[1..];
      }
    }
  }

  /** The characters JavaScript's `\s` and `trim` treat as white space. */
  predicate IsWhitespace(c: char) {
    c == ' ' || c == '\t' || c == '\n' || c == '\r' || c == '\U{000B}' || c == '\U{000C}'
    || c == '\U{00A0}' || c == '\U{1680}' || ('\U{2000}' <= c <= '\U{200A}')
    || c == '\U{2028}' || c == '\U{2029}' || c == '\U{202F}' || c == '\U{205F}'
    || c == '\U{3000}' || c == '\U{FEFF}'
  }

  function TrimStart(s: string): string {
    if s != [] && IsWhitespace(s[0]) then TrimStart(s[1..]) else s
  }

  function TrimEnd(s: string): string {
    if s != [] && IsWhitespace(s[|s| - 1]) then TrimEnd(s[..|s| - 1]) else s
  }

  /** `s.trim()`. */
  function Trim(s: string): string {
    TrimEnd(TrimStart(s))
  }
}

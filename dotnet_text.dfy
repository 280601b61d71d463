/** The parts of the .NET base library that the game logic leans on: `string.Trim`,
    `ToLowerInvariant`, `bool.TryParse`, `int.TryParse`, `ToString()` of `bool` and `int`,
    `string.Join`, `string.Length`, `string.IsNullOrEmpty` and `string.IsNullOrWhiteSpace`.
    A Dafny `char` is a Unicode scalar value, while .NET stores a string as UTF-16 code
    units; `Utf16Length` gives the .NET length. */
module DotNetText {
  import opened Wrappers

  /** C#'s `int`, a 32-bit two's-complement integer. */
  type Int32 = x: int | -0x8000_0000 <= x <= 0x7FFF_FFFF

  const Int32Min: int := -0x8000_0000
  const Int32Max: int := 0x7FFF_FFFF

  /** `x + 1` on C#'s `int` in an unchecked context: the largest value wraps to the smallest. */
  function Int32Increment(x: Int32): (r: Int32)
    ensures x < Int32Max ==> r == x + 1
    ensures x == Int32Max ==> r == Int32Min
  {
    if x == Int32Max then Int32Min else x + 1
  }

  /** The number of distinct 32-bit values. */
  const Int32Modulus: int := 0x1_0000_0000

  /** An `int` result in an unchecked context: the exact value reduced into the 32-bit range,
      so it differs from the exact value by a multiple of 2^32 and equals it when it fits. */
  function Int32Wrap(x: int): (r: Int32)
    ensures Int32Min <= x <= Int32Max ==> r == x
    ensures (r - x) % Int32Modulus == 0
  {
    (x - Int32Min) % Int32Modulus + Int32Min
  }

  /** `char.IsWhiteSpace`: the Unicode separators plus U+0009..U+000D and U+0085. */
  predicate IsWhiteSpace(c: char) {
    c == ' ' || '\t' <= c <= '\r' || c == '\U{85}' || c == '\U{A0}' || c == '\U{1680}'
    || '\U{2000}' <= c <= '\U{200A}' || c == '\U{2028}' || c == '\U{2029}'
    || c == '\U{202F}' || c == '\U{205F}' || c == '\U{3000}'
  }

  predicate AllWhiteSpace(s: string) {
    forall i :: 0 <= i < |s| ==> IsWhiteSpace(s[i])
  }

  /** `string.TrimStart()`: drops the leading white space. */
  function TrimStart(s: string): (r: string)
    ensures |r| <= |s| && r == s[|s| - |r|..]
    ensures AllWhiteSpace(s[..|s| - |r|])
    ensures r == [] || !IsWhiteSpace(r[0])
  {
    if s != [] && IsWhiteSpace(s[0]) then
      var r := TrimStart(s[1..]);
      assert s[..|s| - |r|] == [s[0]] + s[1..][..|s[1..]| - |r|];
      r
    else s
  }

  /** `string.TrimEnd()`: drops the trailing white space. */
  function TrimEnd(s: string): (r: string)
    ensures |r| <= |s| && r == s[..|r|]
    ensures AllWhiteSpace(s[|r|..])
    ensures r == [] || !IsWhiteSpace(r[|r| - 1])
  {
    if s != [] && IsWhiteSpace(s[|s| - 1]) then
      var r := TrimEnd(s[..|s| - 1]);
      assert s[|r|..] == s[..|s| - 1][|r|..] + [s[|s| - 1]];
      r
    else s
  }

  /** `string.Trim()`: what is left has no white space at either end, and nothing is left
      exactly when the text is all white space. */
  function Trim(s: string): (r: string)
    ensures |r| <= |s| && IsTrimmed(r)
    ensures r == [] <==> AllWhiteSpace(s)
  {
    var t := TrimStart(s);
    PaddingAroundCore(s, |s| - |t|, t, TrimEnd(t));
    TrimEnd(t)
  }

  /** `s` split into a white-space prefix, then `t`, which starts with a non-white
      character, of which `r` keeps a prefix and drops only white space. */
  lemma PaddingAroundCore(s: string, k: int, t: string, r: string)
    requires 0 <= k <= |s| && t == s[k..] && AllWhiteSpace(s[..k])
    requires t == [] || !IsWhiteSpace(t[0])
    requires |r| <= |t| && r == t[..|r|] && AllWhiteSpace(t[|r|..])
    ensures r == [] <==> AllWhiteSpace(s)
    ensures r != [] ==> r[0] == t[0]
  {
    if t != [] {
      assert t[0] == s[k];
    }
    if r == [] {
      forall i | 0 <= i < |s| ensures IsWhiteSpace(s[i]) {
        assert s[..k][i] == s[i];
      }
    }
    if r != [] {
      assert r[0] == t[..|r|][0];
    }
  }

  /** A string with no white space at either end, which `Trim` leaves alone. */
  predicate IsTrimmed(s: string) {
    s == [] || (!IsWhiteSpace(s[0]) && !IsWhiteSpace(s[|s| - 1]))
  }

  /** Trimming removes exactly the white space around a trimmed core. */
  lemma {:induction false} TrimRemovesPadding(pre: string, s: string, post: string)
    requires AllWhiteSpace(pre) && AllWhiteSpace(post) && IsTrimmed(s)
    ensures Trim(pre + s + post) == s
  {
    ConcatAssociates(pre, s, post);
    TrimStartSkipsWhiteSpace(pre, s + post);
    TrimTrailingPadding(s, post);
  }

  lemma ConcatAssociates(a: string, b: string, c: string)
    ensures a + b + c == a + (b + c)
  {
  }

  lemma TrimTrailingPadding(s: string, post: string)
    requires AllWhiteSpace(post) && IsTrimmed(s)
    ensures TrimEnd(TrimStart(s + post)) == s
  {
    if s == [] {
      assert s + post == post;
      TrimStartOfWhiteSpace(post);
    } else {
      TrimStartKeepsNonWhite(s + post);
      TrimEndSkipsWhiteSpace(s, post);
    }
  }

  lemma TrimStartKeepsNonWhite(s: string)
    requires s != [] && !IsWhiteSpace(s[0])
    ensures TrimStart(s) == s
  {
  }

  lemma {:induction false} TrimStartSkipsWhiteSpace(pre: string, s: string)
    requires AllWhiteSpace(pre)
    ensures TrimStart(pre + s) == TrimStart(s)
  {
    if pre != [] {
      assert (pre + s)[1..] == pre[1..] + s;
      TrimStartSkipsWhiteSpace(pre[1..], s);
    } else {
      assert pre + s == s;
    }
  }

  lemma {:induction false} TrimStartOfWhiteSpace(s: string)
    requires AllWhiteSpace(s)
    ensures TrimStart(s) == [] && TrimEnd([]) == []
  {
    if s != [] {
      TrimStartOfWhiteSpace(s[1..]);
    }
  }

  lemma {:induction false} TrimEndSkipsWhiteSpace(s: string, post: string)
    requires AllWhiteSpace(post) && IsTrimmed(s) && s != []
    ensures TrimEnd(s + post) == s
  {
    if post != [] {
      assert (s + post)[..|s + post| - 1] == s + post[..|post| - 1];
      TrimEndSkipsWhiteSpace(s, post[..|post| - 1]);
    } else {
      assert s + post == s;
    }
  }

  lemma TrimOfTrimmed(s: string)
    requires IsTrimmed(s)
    ensures Trim(s) == s
  {
    TrimRemovesPadding("", s, "");
    assert "" + s + "" == s;
  }

  /** `char.ToLowerInvariant` on the ASCII letters. */
  function ToLowerChar(c: char): char {
    if 'A' <= c <= 'Z' then (c as int + 32) as char else c
  }

  /** `string.ToLowerInvariant()`, letter by letter: no upper-case ASCII letter is left,
      and every other character is kept. */
  function ToLowerInvariant(s: string): (r: string)
    ensures |r| == |s|
    ensures forall i :: 0 <= i < |r| ==> !('A' <= r[i] <= 'Z')
    ensures forall i :: 0 <= i < |s| && !('A' <= s[i] <= 'Z') ==> r[i] == s[i]
  {
    seq(|s|, i requires 0 <= i < |s| => ToLowerChar(s[i]))
  }

  /** Lower-casing never puts white space at either end: letters are not white space. */
  lemma LowerCaseKeepsTrimmed(t: string)
    requires IsTrimmed(t)
    ensures IsTrimmed(ToLowerInvariant(t))
  {
    var r := ToLowerInvariant(t);
    if t != [] {
      assert r[0] == ToLowerChar(t[0]);
      assert r[|r| - 1] == ToLowerChar(t[|t| - 1]);
    }
  }

  /** `string.Length`: the number of UTF-16 code units, in which a character beyond the Basic
      Multilingual Plane takes two (a surrogate pair). */
  function Utf16Length(s: string): (n: nat)
    ensures |s| <= n <= 2 * |s|
    ensures (forall i :: 0 <= i < |s| ==> s[i] as int < 0x1_0000) ==> n == |s|
  {
    if s == [] then 0
    else
      var init := s[..|s| - 1];
      assert forall i :: 0 <= i < |init| ==> init[i] == s[i];
      Utf16Length(init) + (if s[|s| - 1] as int < 0x1_0000 then 1 else 2)
  }

  /** An emoji is one Dafny character but two .NET code units. */
  lemma EmojiIsTwoCodeUnits()
    ensures |"\U{1F600}"| == 1 && Utf16Length("\U{1F600}") == 2
  {
    assert "\U{1F600}"[..0] == "";
  }

  /** `string.IsNullOrEmpty`. */
  predicate IsNullOrEmpty(s: Option<string>) {
    s == None || s == Some("")
  }

  /** `string.IsNullOrWhiteSpace`. */
  predicate IsNullOrWhiteSpace(s: Option<string>) {
    s == None || AllWhiteSpace(s.value)
  }

  /** `bool.ToString()`. */
  function BoolToString(b: bool): string {
    if b then "True" else "False"
  }

  /** The characters `bool.TryParse` trims away: white space and U+0000. */
  predicate IsWhiteSpaceOrNull(c: char) {
    IsWhiteSpace(c) || c == '\0'
  }

  /** `bool.TryParse`'s own trim: drops white space and U+0000 at both ends, and nothing
      else. */
  function TrimWhiteSpaceAndNull(s: string): (r: string)
    ensures |r| <= |s|
    ensures r == [] || (!IsWhiteSpaceOrNull(r[0]) && !IsWhiteSpaceOrNull(r[|r| - 1]))
    ensures forall i :: 0 <= i < |s| && !IsWhiteSpaceOrNull(s[i]) ==> s[i] in r
  {
    if s != [] && IsWhiteSpaceOrNull(s[0]) then
      var r := TrimWhiteSpaceAndNull(s[1..]);
      assert forall i :: 1 <= i < |s| ==> s[i] == s[1..][i - 1];
      r
    else if s != [] && IsWhiteSpaceOrNull(s[|s| - 1]) then
      var r := TrimWhiteSpaceAndNull(s[..|s| - 1]);
      assert forall i :: 0 <= i < |s| - 1 ==> s[i] == s[..|s| - 1][i];
      r
    else s
  }

  /** `bool.TryParse`: "True" or "False" in any letter case, with white space and U+0000
      around it. A text parses to `b` exactly when, trimmed and lower-cased, it is the text
      of `b.ToString()` lower-cased. */
  function TryParseBool(s: string): (r: Option<bool>)
    ensures forall b: bool {:trigger BoolToString(b)} :: r == Some(b)
              <==> ToLowerInvariant(TrimWhiteSpaceAndNull(s)) == ToLowerInvariant(BoolToString(b))
  {
    LowerCased("True", "true");
    LowerCased("False", "false");
    var word := ToLowerInvariant(TrimWhiteSpaceAndNull(s));
    if word == "true" then Some(true)
    else if word == "false" then Some(false)
    else None
  }

  /** The text `bool.ToString()` produces parses back, by `bool.TryParse`, to the same value. */
  lemma ParseBoolOfBoolToString(b: bool)
    ensures TryParseBool(BoolToString(b)) == Some(b)
  {
    if b {
      TrueParses();
    } else {
      FalseParses();
    }
  }

  lemma TrueParses()
    ensures TryParseBool("True") == Some(true)
  {
    TrimWhiteSpaceAndNullOfTrimmed("True");
    LowerCased("True", "true");
  }

  lemma FalseParses()
    ensures TryParseBool("False") == Some(false)
  {
    TrimWhiteSpaceAndNullOfTrimmed("False");
    LowerCased("False", "false");
  }

  /** Text with neither white space nor U+0000 at its ends is left alone by the trim of
      `bool.TryParse`. */
  lemma TrimWhiteSpaceAndNullOfTrimmed(s: string)
    requires s != [] && !IsWhiteSpaceOrNull(s[0]) && !IsWhiteSpaceOrNull(s[|s| - 1])
    ensures TrimWhiteSpaceAndNull(s) == s
  {
  }

  /** `ToLowerInvariant` lower-cases letter by letter. */
  lemma LowerCased(s: string, w: string)
    requires |s| == |w| && forall i :: 0 <= i < |s| ==> ToLowerChar(s[i]) == w[i]
    ensures ToLowerInvariant(s) == w
  {
  }

  /** The white space that `NumberStyles.Integer` lets surround a number: U+0009..U+000D and U+0020. */
  predicate IsNumberWhite(c: char) {
    c == ' ' || '\t' <= c <= '\r'
  }

  function StripNumberWhite(s: string): (r: string)
    ensures |r| <= |s|
  {
    if s != [] && IsNumberWhite(s[0]) then StripNumberWhite(s[1..])
    else if s != [] && IsNumberWhite(s[|s| - 1]) then StripNumberWhite(s[..|s| - 1])
    else s
  }

  /** Stripping only removes characters. */
  lemma {:induction false} StripNumberWhiteKeeps(s: string, i: int)
    requires 0 <= i < |StripNumberWhite(s)|
    ensures StripNumberWhite(s)[i] in s
    decreases |s|
  {
    if s != [] && IsNumberWhite(s[0]) {
      StripNumberWhiteKeeps(s[1..], i);
      assert s[1..] <= s[1..] && forall c :: c in s[1..] ==> c in s;
    } else if s != [] && IsNumberWhite(s[|s| - 1]) {
      StripNumberWhiteKeeps(s[..|s| - 1], i);
      assert forall c :: c in s[..|s| - 1] ==> c in s;
    }
  }

  predicate IsDigit(c: char) {
    '0' <= c <= '9'
  }

  predicate AllDigits(s: string) {
    forall i :: 0 <= i < |s| ==> IsDigit(s[i])
  }

  /** The value of a run of decimal digits; leading zeros add nothing. */
  function DigitsValue(s: string): nat
    requires AllDigits(s)
  {
    if s == [] then 0 else DigitsValue(s[..|s| - 1]) * 10 + (s[|s| - 1] as int - '0' as int)
  }

  /** The U+0000 characters that `int.TryParse` lets follow a number and its trailing white
      space, dropped. */
  function DropTrailingNulls(s: string): (r: string)
    ensures |r| <= |s| && r == s[..|r|]
    ensures forall i :: |r| <= i < |s| ==> s[i] == '\0'
    ensures r == [] || r[|r| - 1] != '\0'
  {
    if s != [] && s[|s| - 1] == '\0' then DropTrailingNulls(s[..|s| - 1]) else s
  }

  /** `int.TryParse` with the default `NumberStyles.Integer` and an invariant culture:
      optional surrounding white space, an optional leading sign, at least one digit, and a
      value in the 32-bit range; U+0000 characters may follow at the very end. */
  function TryParseInt(s: string): (r: Option<Int32>)
    ensures r.Some? ==> exists i :: 0 <= i < |s| && IsDigit(s[i])
    ensures r.Some? && r.value < 0 ==> '-' in s
  {
    var t := StripNumberWhite(DropTrailingNulls(s));
    if t == [] then None
    else
      var digits := if t[0] == '-' || t[0] == '+' then t[1..] else t;
      if digits == [] || !AllDigits(digits) then None
      else
        StripNumberWhiteKeeps(DropTrailingNulls(s), if digits == t then 0 else 1);
        StripNumberWhiteKeeps(DropTrailingNulls(s), 0);
        var v: int := if t[0] == '-' then -(DigitsValue(digits) as int) else DigitsValue(digits);
        if Int32Min <= v <= Int32Max then Some(v) else None
  }

  function Digit(d: nat): (c: char)
    requires d < 10
    ensures IsDigit(c) && c as int - '0' as int == d
  {
    ('0' as int + d) as char
  }

  /** The decimal digits of a natural number, without leading zeros. */
  function NatToDigits(n: nat): (r: string)
    ensures |r| > 0 && AllDigits(r)
  {
    if n < 10 then [Digit(n)] else NatToDigits(n / 10) + [Digit(n % 10)]
  }

  /** `int.ToString()` in the invariant culture. */
  function IntToString(n: int): (r: string)
    ensures r != [] && IsTrimmed(r)
    ensures (r[0] == '-') == (n < 0)
  {
    var r := if n < 0 then "-" + NatToDigits(-n) else NatToDigits(n);
    assert IsDigit(r[|r| - 1]);
    assert n >= 0 ==> IsDigit(r[0]);
    r
  }

  /** The number of characters of all the parts together. */
  function TotalLength(parts: seq<string>): nat {
    if parts == [] then 0 else |parts[0]| + TotalLength(parts[1..])
  }

  /** `string.Join(separator, parts)`: the parts in order, with one separator between each two
      of them; no parts join to the empty string. */
  function Join(separator: string, parts: seq<string>): (r: string)
    ensures parts == [] ==> r == ""
    ensures parts != [] ==> |r| == TotalLength(parts) + (|parts| - 1) * |separator|
    ensures parts != [] ==> r[..|parts[0]|] == parts[0]
  {
    if parts == [] then ""
    else if |parts| == 1 then parts[0]
    else
      var rest := Join(separator, parts[1..]);
      assert (|parts| - 1) * |separator| == (|parts| - 2) * |separator| + |separator|;
      parts[0] + separator + rest
  }

  lemma {:induction false} DigitsRoundTrip(n: nat)
    ensures DigitsValue(NatToDigits(n)) == n
  {
    if n >= 10 {
      var d := NatToDigits(n / 10) + [Digit(n % 10)];
      assert d[..|d| - 1] == NatToDigits(n / 10);
      DigitsRoundTrip(n / 10);
    }
  }

  lemma {:induction false} StripNumberWhiteOfNumber(s: string)
    requires s != [] && !IsNumberWhite(s[0]) && !IsNumberWhite(s[|s| - 1])
    ensures StripNumberWhite(s) == s
  {
  }

  /** The text `int.ToString()` produces parses back, by `int.TryParse`, to the same value. */
  lemma {:induction false} ParseIntOfIntToString(n: Int32)
    ensures TryParseInt(IntToString(n)) == Some(n)
  {
    if n < 0 {
      var m: nat := -(n as int);
      DigitsRoundTrip(m);
      ParseSignedDigits(IntToString(n), true, NatToDigits(m));
    } else {
      DigitsRoundTrip(n);
      ParseSignedDigits(IntToString(n), false, NatToDigits(n));
    }
  }

  /** Digits, with a minus sign in front when `negative`, parse to their value when it fits
      in 32 bits. */
  lemma ParseSignedDigits(t: string, negative: bool, d: string)
    requires d != [] && AllDigits(d) && t == (if negative then "-" + d else d)
    requires Int32Min <= (if negative then -(DigitsValue(d) as int) else DigitsValue(d)) <= Int32Max
    ensures TryParseInt(t) == Some(if negative then -(DigitsValue(d) as int) else DigitsValue(d))
  {
    assert IsDigit(d[|d| - 1]) && t[|t| - 1] == d[|d| - 1];
    assert DropTrailingNulls(t) == t;
    StripNumberWhiteOfNumber(t);
    if negative {
      assert t[1..] == d;
    } else {
      assert IsDigit(t[0]);
    }
  }

  /** Distinct integers are written as distinct strings. */
  lemma {:induction false} IntToStringInjective(a: int, b: int)
    requires IntToString(a) == IntToString(b)
    ensures a == b
  {
    if a < 0 {
      assert b < 0;
      var da, db := NatToDigits(-a), NatToDigits(-b);
      assert IntToString(a)[1..] == da;
      assert IntToString(b)[1..] == db;
      DigitsRoundTrip(-a);
      DigitsRoundTrip(-b);
    } else {
      assert b >= 0;
      DigitsRoundTrip(a);
      DigitsRoundTrip(b);
    }
  }
}

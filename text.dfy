/**
 * String helpers: the `StringComparison` modes the registries use for name
 * lookup, decimal rendering of integers, and runs of one character.
 * Case-insensitive comparison folds ASCII letters only.
 */
module Text {
  import opened Wrappers

  /** Upper-case folding of one character (ASCII letters only). */
  function UpperAscii(c: char): char {
    if 'a' <= c <= 'z' then (c as int - 32) as char else c
  }

  /** `string.Equals(a, b, StringComparison.OrdinalIgnoreCase)`. */
  predicate EqualsIgnoreCase(a: string, b: string) {
    |a| == |b| && forall i :: 0 <= i < |a| ==> UpperAscii(a[i]) == UpperAscii(b[i])
  }

  datatype StringComparison = Ordinal | OrdinalIgnoreCase

  /** `string.Equals(a, b, comparison)`. */
  predicate NamesEqual(a: string, b: string, comparison: StringComparison) {
    match comparison
    case Ordinal => a == b
    case OrdinalIgnoreCase => EqualsIgnoreCase(a, b)
  }

  /**
   * The position of the first name equal to `name` under `comparison`: what
   * a `foreach` that returns on the first match finds.
   */
  function FirstMatch(names: seq<string>, name: string, comparison: StringComparison): (r: Option<nat>)
    ensures r.Some? ==> r.value < |names| && NamesEqual(names[r.value], name, comparison)
    ensures r.Some? ==> forall j :: 0 <= j < r.value ==> !NamesEqual(names[j], name, comparison)
    ensures r.None? <==> forall j :: 0 <= j < |names| ==> !NamesEqual(names[j], name, comparison)
  {
    if names == [] then None
    else if NamesEqual(names[0], name, comparison) then Some(0)
    else
      match FirstMatch(names[1..], name, comparison)
      case None => None
      case Some(k) => Some(k + 1)
  }

  /** Every exact match is also a case-insensitive match. */
  lemma OrdinalImpliesIgnoreCase(a: string, b: string)
    requires a == b
    ensures NamesEqual(a, b, OrdinalIgnoreCase)
  {
  }

  /** Case-insensitive equality is symmetric and transitive, so names that match one another match the same names. */
  lemma IgnoreCaseEquivalence(a: string, b: string, c: string)
    ensures NamesEqual(a, b, OrdinalIgnoreCase) ==> NamesEqual(b, a, OrdinalIgnoreCase)
    ensures NamesEqual(a, b, OrdinalIgnoreCase) && NamesEqual(b, c, OrdinalIgnoreCase) ==> NamesEqual(a, c, OrdinalIgnoreCase)
  {
  }

  /** The decimal digit character of `d`. */
  function Digit(d: nat): (c: char)
    requires d < 10
    ensures '0' <= c <= '9' && c as int - '0' as int == d
  {
    ('0' as int + d) as char
  }

  /** `int.ToString()` for a non-negative value: decimal digits, no leading zeros. */
  function NatString(n: nat): (s: string)
    ensures 1 <= |s|
    ensures forall i :: 0 <= i < |s| ==> '0' <= s[i] <= '9'
    ensures n < 10 <==> |s| == 1
  {
    if n < 10 then [Digit(n)] else NatString(n / 10) + [Digit(n % 10)]
  }

  /** `int.ToString()`: a leading '-' for negative values. */
  function IntString(n: int): (s: string)
    ensures 1 <= |s|
    ensures (s[0] == '-') <==> n < 0
  {
    if n < 0 then "-" + NatString(-n) else NatString(n)
  }

  /** The UTF-16 code units of one character: two for one outside the Basic Multilingual Plane. */
  function Utf16Units(c: char): nat {
    if c as int < 0x1_0000 then 1 else 2
  }

  /** `string.Length`: the number of UTF-16 code units of the text. */
  function Utf16Length(s: string): (n: nat)
    ensures |s| <= n <= 2 * |s|
  {
    if s == [] then 0 else Utf16Length(s[..|s| - 1]) + Utf16Units(s[|s| - 1])
  }

  /** The UTF-8 bytes of one character. */
  function Utf8Bytes(c: char): nat {
    if c as int < 0x80 then 1
    else if c as int < 0x800 then 2
    else if c as int < 0x1_0000 then 3
    else 4
  }

  /** The length of a `FixedString128Bytes` holding the text: its UTF-8 byte count. */
  function Utf8Length(s: string): (n: nat)
    ensures |s| <= n <= 4 * |s|
  {
    if s == [] then 0 else Utf8Length(s[..|s| - 1]) + Utf8Bytes(s[|s| - 1])
  }

  predicate IsAscii(s: string) {
    forall i :: 0 <= i < |s| ==> s[i] as int < 0x80
  }

  predicate InBasicPlane(s: string) {
    forall i :: 0 <= i < |s| ==> s[i] as int < 0x1_0000
  }

  /** A text's byte count equals its character count exactly when it is ASCII. */
  lemma {:induction false} Utf8LengthExact(s: string)
    ensures Utf8Length(s) == |s| <==> IsAscii(s)
    decreases |s|
  {
    if s != [] {
      var init := s[..|s| - 1];
      Utf8LengthExact(init);
      if IsAscii(s) {
        assert IsAscii(init) by {
          forall i | 0 <= i < |init| ensures init[i] as int < 0x80 { assert init[i] == s[i]; }
        }
      } else if IsAscii(init) {
        assert !(s[|s| - 1] as int < 0x80) by {
          forall i | 0 <= i < |s| - 1 ensures s[i] as int < 0x80 { assert s[i] == init[i]; }
        }
      }
    }
  }

  /** A text's UTF-16 length equals its character count exactly when no character lies beyond the Basic Multilingual Plane. */
  lemma {:induction false} Utf16LengthExact(s: string)
    ensures Utf16Length(s) == |s| <==> InBasicPlane(s)
    decreases |s|
  {
    if s != [] {
      var init := s[..|s| - 1];
      Utf16LengthExact(init);
      if InBasicPlane(s) {
        assert InBasicPlane(init) by {
          forall i | 0 <= i < |init| ensures init[i] as int < 0x1_0000 { assert init[i] == s[i]; }
        }
      } else if InBasicPlane(init) {
        assert !(s[|s| - 1] as int < 0x1_0000) by {
          forall i | 0 <= i < |s| - 1 ensures s[i] as int < 0x1_0000 { assert s[i] == init[i]; }
        }
      }
    }
  }

  predicate AllDigits(s: string) {
    forall i :: 0 <= i < |s| ==> '0' <= s[i] <= '9'
  }

  /** The number a string of decimal digits denotes. */
  function DigitsValue(s: string): nat
    requires AllDigits(s)
  {
    if s == [] then 0 else DigitsValue(s[..|s| - 1]) * 10 + (s[|s| - 1] as int - '0' as int)
  }

  /** `NatString(n)` reads back as `n` and has no leading zero (but for "0" itself). */
  lemma {:induction false} NatStringValue(n: nat)
    ensures AllDigits(NatString(n)) && DigitsValue(NatString(n)) == n
    ensures NatString(n)[0] == '0' <==> n == 0
  {
    if n >= 10 {
      NatStringValue(n / 10);
      assert NatString(n)[..|NatString(n)| - 1] == NatString(n / 10);
    }
  }

  /** `IntString(n)` is `n`'s magnitude in digits, after a '-' when negative. */
  lemma IntStringValue(n: int)
    ensures n >= 0 ==> AllDigits(IntString(n)) && DigitsValue(IntString(n)) == n
    ensures n < 0 ==> AllDigits(IntString(n)[1..]) && DigitsValue(IntString(n)[1..]) == -n
  {
    if n < 0 {
      NatStringValue(-n);
      assert IntString(n)[1..] == NatString(-n);
    } else {
      NatStringValue(n);
    }
  }

  /** `new string(c, n)`. */
  function Repeat(c: char, n: nat): (s: string)
    ensures |s| == n && forall i :: 0 <= i < n ==> s[i] == c
  {
    seq(n, _ => c)
  }

  /** A run of `n` copies of one character takes `n` times its UTF-16 units. */
  lemma {:induction false} Utf16LengthRepeat(c: char, n: nat)
    ensures Utf16Length(Repeat(c, n)) == n * Utf16Units(c)
  {
    if n > 0 {
      Utf16LengthRepeat(c, n - 1);
      assert Repeat(c, n)[..n - 1] == Repeat(c, n - 1);
    }
  }
}

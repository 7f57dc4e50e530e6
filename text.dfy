/**
 * The string handling the modelled code borrows from JavaScript: decimal
 * rendering, `String.prototype.split` on one character, `trim`, and the
 * integer subsets of `Number(s)` and `parseInt(s, 10)`.
 */
module Text {
  import opened Wrappers

  predicate IsDigit(c: char) {
    '0' <= c <= '9'
  }

  predicate AllDigits(s: string) {
    forall i :: 0 <= i < |s| ==> IsDigit(s[i])
  }

  /**
   * JavaScript's white space as `\s` and `trim` see it: tab, line feed,
   * vertical tab, form feed, carriage return, space, and the Unicode spaces
   * U+00A0, U+1680, U+2000..U+200A, U+2028, U+2029, U+202F, U+205F, U+3000, U+FEFF.
   */
  predicate IsSpace(c: char) {
    var k := c as int;
    (9 <= k <= 13) || k == 32 || k == 0xA0 || k == 0x1680 || (0x2000 <= k <= 0x200A)
    || k == 0x2028 || k == 0x2029 || k == 0x202F || k == 0x205F || k == 0x3000 || k == 0xFEFF
  }

  /** `s.trim() === ""`. */
  predicate IsBlank(s: string) {
    forall i :: 0 <= i < |s| ==> IsSpace(s[i])
  }

  lemma DigitIsNotSpace(c: char)
    requires IsDigit(c)
    ensures !IsSpace(c)
  {
  }

  function DigitValue(c: char): nat
    requires IsDigit(c)
  {
    (c as int) - ('0' as int)
  }

  function DigitChar(d: nat): (c: char)
    requires d < 10
    ensures IsDigit(c) && DigitValue(c) == d
  {
    (('0' as int) + d) as char
  }

  /** The value of a decimal digit string, most significant digit first. */
  function DigitsValue(s: string): nat
    requires AllDigits(s)
  {
    if s == [] then 0 else DigitsValue(s[..|s| - 1]) * 10 + DigitValue(s[|s| - 1])
  }

  /** Decimal rendering of a natural number, as `n.toString()` writes it. */
  function NatToString(n: nat): (s: string)
    ensures |s| >= 1 && AllDigits(s)
  {
    if n < 10 then [DigitChar(n)] else NatToString(n / 10) + [DigitChar(n % 10)]
  }

  /** Decimal rendering of an integer, with a leading '-' when negative. */
  function IntToString(n: int): (s: string)
    ensures |s| >= 1
  {
    if n < 0 then "-" + NatToString(-n) else NatToString(n)
  }

  /** Reading back what NatToString wrote gives the number again. */
  lemma {:induction false} NatToStringRoundTrip(n: nat)
    ensures DigitsValue(NatToString(n)) == n
  {
    if n >= 10 {
      NatToStringRoundTrip(n / 10);
      var s := NatToString(n);
      assert s[..|s| - 1] == NatToString(n / 10);
    }
  }

  /** `s.split(sep)`: the maximal runs between separators, empty runs included. */
  function Split(s: string, sep: char): (parts: seq<string>)
    ensures |parts| >= 1
  {
    if s == [] then [[]]
    else
      var rest := Split(s[1..], sep);
      if s[0] == sep then [[]] + rest else [[s[0]] + rest[0]] + rest[1..]
  }

  /** `parts.join(sep)`, the inverse of Split. */
  function Join(parts: seq<string>, sep: char): string
    requires |parts| >= 1
  {
    if |parts| == 1 then parts[0] else parts[0] + [sep] + Join(parts[1..], sep)
  }

  /** Split loses nothing: joining the parts back gives the string. */
  lemma {:induction false} SplitJoin(s: string, sep: char)
    ensures Join(Split(s, sep), sep) == s
  {
    if s != [] {
      SplitJoin(s[1..], sep);
      var rest := Split(s[1..], sep);
      if s[0] == sep {
        assert Split(s, sep)[1..] == rest;
      } else {
        var parts := Split(s, sep);
        assert parts[1..] == rest[1..];
        if |rest| == 1 {
          assert Join(parts, sep) == [s[0]] + rest[0];
        } else {
          assert Join(parts, sep) == [s[0]] + rest[0] + [sep] + Join(rest[1..], sep);
        }
        assert [s[0]] + s[1..] == s;
      }
    }
  }

  /** Split cuts at every separator: no part holds one. */
  lemma {:induction false} SplitPartsClean(s: string, sep: char)
    ensures forall k :: 0 <= k < |Split(s, sep)| ==> sep !in Split(s, sep)[k]
  {
    if s != [] {
      SplitPartsClean(s[1..], sep);
      var rest := Split(s[1..], sep);
      var parts := Split(s, sep);
      if s[0] == sep {
        assert parts[1..] == rest;
        forall k | 0 <= k < |parts|
          ensures sep !in parts[k]
        {
          if k > 0 {
            assert parts[k] == rest[k - 1];
          }
        }
      } else {
        forall k | 0 <= k < |parts|
          ensures sep !in parts[k]
        {
          if k > 0 {
            assert parts[k] == rest[k];
          } else {
            assert parts[0] == [s[0]] + rest[0];
          }
        }
      }
    }
  }

  /** A prefix without separators followed by a separator is cut off as the first part. */
  lemma {:induction false} SplitAfter(a: string, sep: char, b: string)
    requires sep !in a
    ensures Split(a + [sep] + b, sep) == [a] + Split(b, sep)
  {
    if a == [] {
      assert a + [sep] + b == [sep] + b;
      assert ([sep] + b)[1..] == b;
    } else {
      SplitAfter(a[1..], sep, b);
      assert (a + [sep] + b)[1..] == a[1..] + [sep] + b;
      assert [a[0]] + a[1..] == a;
    }
  }

  /** A string without separators is one part. */
  lemma {:induction false} SplitNone(a: string, sep: char)
    requires sep !in a
    ensures Split(a, sep) == [a]
  {
    if a != [] {
      SplitNone(a[1..], sep);
      assert [a[0]] + a[1..] == a;
    }
  }

  /** `s.trimStart()`. */
  function TrimStart(s: string): (t: string)
    ensures |t| <= |s|
    ensures t != [] ==> !IsSpace(t[0])
  {
    if s != [] && IsSpace(s[0]) then TrimStart(s[1..]) else s
  }

  /** `s.trimEnd()`. */
  function TrimEnd(s: string): (t: string)
    ensures |t| <= |s|
    ensures t != [] ==> !IsSpace(t[|t| - 1])
  {
    if s != [] && IsSpace(s[|s| - 1]) then TrimEnd(s[..|s| - 1]) else s
  }

  function Trim(s: string): string {
    TrimEnd(TrimStart(s))
  }

  /** `trimStart` drops exactly the leading white space: a blank prefix goes, the rest stays. */
  lemma {:induction false} TrimStartDrops(s: string)
    ensures var k := |s| - |TrimStart(s)|; IsBlank(s[..k]) && TrimStart(s) == s[k..]
  {
    if s != [] && IsSpace(s[0]) {
      TrimStartDrops(s[1..]);
      var k := |s| - |TrimStart(s)|;
      assert s[1..][k - 1..] == s[k..];
      forall i | 0 <= i < k
        ensures IsSpace(s[..k][i])
      {
        if i > 0 {
          assert s[..k][i] == s[1..][..k - 1][i - 1];
        }
      }
    }
  }

  /** `trimEnd` drops exactly the trailing white space: a blank suffix goes, the rest stays. */
  lemma {:induction false} TrimEndDrops(s: string)
    ensures var k := |TrimEnd(s)|; IsBlank(s[k..]) && TrimEnd(s) == s[..k]
  {
    if s != [] && IsSpace(s[|s| - 1]) {
      var p := s[..|s| - 1];
      TrimEndDrops(p);
      var k := |TrimEnd(s)|;
      assert p[..k] == s[..k];
      forall i | k <= i < |s|
        ensures IsSpace(s[i])
      {
        if i < |s| - 1 {
          assert s[i] == p[k..][i - k];
        }
      }
    }
  }

  /** `trimStart` leaves nothing exactly of blank text. */
  lemma {:induction false} TrimStartEmpty(s: string)
    ensures TrimStart(s) == [] <==> IsBlank(s)
  {
    if s != [] && IsSpace(s[0]) {
      TrimStartEmpty(s[1..]);
      assert forall i :: 0 <= i < |s[1..]| ==> s[1..][i] == s[i + 1];
    }
  }

  /** `trimEnd` leaves nothing exactly of blank text. */
  lemma {:induction false} TrimEndEmpty(s: string)
    ensures TrimEnd(s) == [] <==> IsBlank(s)
  {
    if s != [] && IsSpace(s[|s| - 1]) {
      TrimEndEmpty(s[..|s| - 1]);
      assert forall i :: 0 <= i < |s| - 1 ==> s[..|s| - 1][i] == s[i];
    }
  }

  /** `s.trim() === ""` holds exactly of blank text. */
  lemma BlankIffTrimEmpty(s: string)
    ensures IsBlank(s) <==> Trim(s) == []
  {
    TrimStartEmpty(s);
    TrimEndEmpty(TrimStart(s));
  }

  /** The longest prefix of s made of digits. */
  function LeadingDigits(s: string): (p: string)
    ensures AllDigits(p) && p <= s
    ensures |p| < |s| ==> !IsDigit(s[|p|])
  {
    if s != [] && IsDigit(s[0]) then [s[0]] + LeadingDigits(s[1..]) else []
  }

  /**
   * `Number(s)` on integer text: surrounding white space is ignored, blank
   * text is 0, an optional sign followed by digits is that integer, and
   * anything else is NaN (None).
   */
  function ToNumber(s: string): Option<int> {
    var t := Trim(s);
    if t == [] then Some(0)
    else if t[0] == '-' || t[0] == '+' then
      if |t| > 1 && AllDigits(t[1..]) then
        Some(if t[0] == '-' then -(DigitsValue(t[1..]) as int) else DigitsValue(t[1..]))
      else None
    else if AllDigits(t) then Some(DigitsValue(t))
    else None
  }

  /**
   * `parseInt(s, 10)`: leading white space is skipped, an optional sign is
   * read, then the longest run of digits; text after it is ignored. No digit
   * at all is NaN (None).
   */
  function ParseInt(s: string): Option<int> {
    var t := TrimStart(s);
    var body := if t != [] && (t[0] == '-' || t[0] == '+') then t[1..] else t;
    var p := LeadingDigits(body);
    if p == [] then None
    else Some(if t != [] && t[0] == '-' then -(DigitsValue(p) as int) else DigitsValue(p))
  }

  /** A digit string is its own trimmed form. */
  lemma DigitsUntrimmed(s: string)
    requires AllDigits(s) && s != []
    ensures TrimStart(s) == s && TrimEnd(s) == s && Trim(s) == s
  {
    DigitIsNotSpace(s[0]);
    DigitIsNotSpace(s[|s| - 1]);
  }

  /** `Number(n.toString()) === n`. */
  lemma ToNumberOfNatToString(n: nat)
    ensures ToNumber(NatToString(n)) == Some(n)
  {
    var s := NatToString(n);
    DigitsUntrimmed(s);
    assert IsDigit(s[0]);
    assert s[0] != '-' && s[0] != '+';
    NatToStringRoundTrip(n);
  }

  lemma {:induction false} LeadingDigitsOfDigits(p: string, rest: string)
    requires AllDigits(p)
    requires rest == [] || !IsDigit(rest[0])
    ensures LeadingDigits(p + rest) == p
  {
    if p != [] {
      LeadingDigitsOfDigits(p[1..], rest);
      assert (p + rest)[1..] == p[1..] + rest;
      assert [p[0]] + p[1..] == p;
    }
  }

  /** `parseInt(n.toString() + rest) === n` whenever rest does not start with a digit, e.g. "72 bpm". */
  lemma ParseIntOfNatToString(n: nat, rest: string)
    requires rest == [] || !IsDigit(rest[0])
    ensures ParseInt(NatToString(n) + rest) == Some(n)
  {
    ParseIntOfDigits(NatToString(n), rest);
    NatToStringRoundTrip(n);
  }

  /** `parseInt` reads an unsigned digit run up to the first non-digit. */
  lemma ParseIntOfDigits(s: string, rest: string)
    requires AllDigits(s) && s != []
    requires rest == [] || !IsDigit(rest[0])
    ensures ParseInt(s + rest) == Some(DigitsValue(s) as int)
  {
    DigitLed(s, rest);
    ParseIntUnsigned(s + rest);
  }

  /** Digits followed by a non-digit: nothing to trim, and the digit run is s. */
  lemma DigitLed(s: string, rest: string)
    requires AllDigits(s) && s != []
    requires rest == [] || !IsDigit(rest[0])
    ensures TrimStart(s + rest) != [] && IsDigit(TrimStart(s + rest)[0])
    ensures LeadingDigits(TrimStart(s + rest)) == s
  {
    var t := s + rest;
    DigitIsNotSpace(s[0]);
    assert t == [s[0]] + (s[1..] + rest);
    Untrimmed(s[0], s[1..] + rest);
    LeadingDigitsOfDigits(s, rest);
  }

  /** Text whose first character after white space is a digit is read without a sign. */
  lemma ParseIntUnsigned(t: string)
    requires TrimStart(t) != [] && IsDigit(TrimStart(t)[0])
    ensures ParseInt(t) == Some(DigitsValue(LeadingDigits(TrimStart(t))) as int)
  {
    var u := TrimStart(t);
    assert u[0] != '-' && u[0] != '+';
    assert LeadingDigits(u) != [];
  }

  /** `parseInt(i.toString() + rest) === i` for any integer, when rest does not start with a digit. */
  lemma ParseIntOfIntToString(i: int, rest: string)
    requires rest == [] || !IsDigit(rest[0])
    ensures ParseInt(IntToString(i) + rest) == Some(i)
  {
    if i >= 0 {
      ParseIntOfNatToString(i, rest);
    } else {
      ParseIntOfNegative(-i, rest);
      assert IntToString(i) + rest == "-" + NatToString(-i) + rest;
    }
  }

  lemma ParseIntOfNegative(n: nat, rest: string)
    requires rest == [] || !IsDigit(rest[0])
    ensures ParseInt("-" + NatToString(n) + rest) == Some(-(n as int))
  {
    MinusLed(NatToString(n), rest);
    ParseIntNegative("-" + NatToString(n) + rest);
    NatToStringRoundTrip(n);
  }

  /** A minus sign, digits, then a non-digit: nothing to trim, and the digit run after the sign is s. */
  lemma MinusLed(s: string, rest: string)
    requires AllDigits(s) && s != []
    requires rest == [] || !IsDigit(rest[0])
    ensures var u := TrimStart("-" + s + rest);
      u != [] && u[0] == '-' && LeadingDigits(u[1..]) == s
  {
    var t := "-" + s + rest;
    assert t == ['-'] + (s + rest);
    Untrimmed('-', s + rest);
    assert t[1..] == s + rest;
    LeadingDigitsOfDigits(s, rest);
  }

  /** Text whose first character after white space is '-' followed by digits reads as a negative number. */
  lemma ParseIntNegative(t: string)
    requires TrimStart(t) != [] && TrimStart(t)[0] == '-' && LeadingDigits(TrimStart(t)[1..]) != []
    ensures ParseInt(t) == Some(-(DigitsValue(LeadingDigits(TrimStart(t)[1..])) as int))
  {
  }

  /** Text that starts with a character other than white space is its own `trimStart`. */
  lemma Untrimmed(c: char, u: string)
    requires !IsSpace(c)
    ensures TrimStart([c] + u) == [c] + u
  {
  }
}

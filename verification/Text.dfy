/** Helpers shared by every module, after Go's `strings`, `fmt`, `strconv` and `time` packages.
    A Go string is a sequence of bytes; it is modelled as a `string` whose characters are all
    below 256 (see `IsBytes`), so that `|s|` is Go's `len(s)`. */
module Text {

  datatype Option<+T> = None | Some(value: T)

  /** Times and durations are in nanoseconds, as in Go's `time`. */
  const SECOND := 1_000_000_000

  predicate IsBytes(s: string) {
    forall i :: 0 <= i < |s| ==> s[i] as int < 256
  }

  predicate HasPrefix(s: string, prefix: string) {
    prefix <= s
  }

  predicate HasSuffix(s: string, suffix: string) {
    |suffix| <= |s| && s[|s| - |suffix|..] == suffix
  }

  function TrimPrefix(s: string, prefix: string): string {
    if HasPrefix(s, prefix) then s[|prefix|..] else s
  }

  // ----- decimal numerals -----

  predicate IsDigit(c: char) {
    '0' <= c <= '9'
  }

  predicate AllDigits(s: string) {
    forall i :: 0 <= i < |s| ==> IsDigit(s[i])
  }

  function DigitChar(d: nat): (c: char)
    requires d < 10
    ensures IsDigit(c) && c as int - '0' as int == d
  {
    '0' + d as char
  }

  /** `fmt.Sprintf("%d", n)` for a non-negative n. */
  function Decimal(n: nat): (s: string)
    ensures s != [] && AllDigits(s)
  {
    if n < 10 then [DigitChar(n)] else Decimal(n / 10) + [DigitChar(n % 10)]
  }

  function DigitsValue(s: string): nat
    requires AllDigits(s)
  {
    if s == [] then 0
    else DigitsValue(s[..|s| - 1]) * 10 + (s[|s| - 1] as int - '0' as int)
  }

  lemma {:induction false} DigitsValueOfDecimal(n: nat)
    ensures DigitsValue(Decimal(n)) == n
  {
    if n < 10 {
      assert Decimal(n)[..0] == [];
    } else {
      DigitsValueOfDecimal(n / 10);
      assert Decimal(n)[..|Decimal(n)| - 1] == Decimal(n / 10);
    }
  }

  lemma DecimalInjective(m: nat, n: nat)
    requires Decimal(m) == Decimal(n)
    ensures m == n
  {
    DigitsValueOfDecimal(m);
    DigitsValueOfDecimal(n);
  }

  function Pow10(d: nat): nat {
    if d == 0 then 1 else 10 * Pow10(d - 1)
  }

  lemma {:induction false} DecimalLength(n: nat, d: nat)
    requires d > 0 && n < Pow10(d)
    ensures |Decimal(n)| <= d
  {
    if 10 <= n {
      assert d > 1 by { assert Pow10(1) == 10; }
      DecimalLength(n / 10, d - 1);
    }
  }

  const INT64_MIN := -0x8000_0000_0000_0000
  const INT64_MAX := 0x7fff_ffff_ffff_ffff

  /** A numeral that Go can print from an `int` has at most 19 digits. */
  lemma Int64Length(n: nat)
    requires n <= INT64_MAX
    ensures |Decimal(n)| <= 19
  {
    assert Pow10(5) == 100_000;
    assert Pow10(10) == 100_000 * Pow10(5);
    assert Pow10(15) == 100_000 * Pow10(10);
    assert Pow10(19) == 10_000 * Pow10(15);
    DecimalLength(n, 19);
  }

  /** `fmt.Sprintf("%d", n)` for a signed n. */
  function FormatInt(n: int): (s: string)
    ensures s != []
  {
    if n < 0 then "-" + Decimal(-n) else Decimal(n)
  }

  /** `strconv.Atoi`: an optional sign, then at least one digit, in the range of a 64-bit int. */
  function Atoi(s: string): Option<int> {
    var signed := s != [] && (s[0] == '-' || s[0] == '+');
    var digits := if signed then s[1..] else s;
    if digits == [] || !AllDigits(digits) then None
    else
      var v: int := if signed && s[0] == '-' then 0 - DigitsValue(digits) else DigitsValue(digits);
      if INT64_MIN <= v <= INT64_MAX then Some(v) else None
  }

  lemma AtoiOfFormatInt(n: int)
    requires INT64_MIN <= n <= INT64_MAX
    ensures Atoi(FormatInt(n)) == Some(n)
  {
    if n < 0 {
      DigitsValueOfDecimal(-n);
      assert FormatInt(n)[1..] == Decimal(-n);
    } else {
      DigitsValueOfDecimal(n);
      assert IsDigit(FormatInt(n)[0]);
    }
  }

  /** Digits, at least one, after an optional sign, for a number in range. */
  predicate Writes(s: string, digits: string, v: int) {
    && digits != [] && AllDigits(digits) && INT64_MIN <= v <= INT64_MAX
    && (|| ((s == digits || s == "+" + digits) && v == DigitsValue(digits))
        || (s == "-" + digits && v == 0 - DigitsValue(digits)))
  }

  lemma AtoiIsExact(s: string, v: int)
    ensures Atoi(s) == Some(v) <==> exists digits :: Writes(s, digits, v)
  {
    if Atoi(s) == Some(v) {
      if s[0] == '-' || s[0] == '+' {
        assert s == [s[0]] + s[1..];
        assert Writes(s, s[1..], v);
      } else {
        assert Writes(s, s, v);
      }
    }
    forall digits | Writes(s, digits, v)
      ensures Atoi(s) == Some(v)
    {
      assert IsDigit(digits[0]);
      if s != digits {
        assert s[1..] == digits;
      }
    }
  }

  // ----- splitting -----

  /** `strings.Split(s, sep)` for a one-character separator. */
  function Split(s: string, sep: char): (parts: seq<string>)
    ensures parts != []
  {
    if s == [] then [[]]
    else
      var rest := Split(s[1..], sep);
      if s[0] == sep then [[]] + rest else [[s[0]] + rest[0]] + rest[1..]
  }

  lemma {:induction false} SplitWithout(s: string, sep: char)
    requires sep !in s
    ensures Split(s, sep) == [s]
  {
    if s != [] {
      SplitWithout(s[1..], sep);
      assert s == [s[0]] + s[1..];
    }
  }

  lemma {:induction false} SplitFirst(field: string, sep: char, rest: string)
    requires sep !in field
    ensures Split(field + [sep] + rest, sep) == [field] + Split(rest, sep)
  {
    var s := field + [sep] + rest;
    if field == [] {
      assert s[1..] == rest;
    } else {
      SplitFirst(field[1..], sep, rest);
      assert s[1..] == field[1..] + [sep] + rest;
      assert [s[0]] + field[1..] == field;
    }
  }

  lemma SplitThree(a: string, b: string, c: string, sep: char)
    requires sep !in a && sep !in b && sep !in c
    ensures Split(a + [sep] + b + [sep] + c, sep) == [a, b, c]
  {
    assert a + [sep] + b + [sep] + c == a + [sep] + (b + [sep] + c);
    SplitFirst(a, sep, b + [sep] + c);
    SplitFirst(b, sep, c);
    SplitWithout(c, sep);
  }

  /** Every string is its first part, and whatever follows the first separator. */
  lemma {:induction false} SplitHead(s: string, sep: char) returns (rest: string)
    ensures sep !in Split(s, sep)[0]
    ensures |Split(s, sep)| == 1 ==> s == Split(s, sep)[0]
    ensures |Split(s, sep)| > 1 ==> s == Split(s, sep)[0] + [sep] + rest && Split(rest, sep) == Split(s, sep)[1..]
  {
    rest := [];
    if s != [] {
      var tail := Split(s[1..], sep);
      if s[0] == sep {
        rest := s[1..];
        assert s == [] + [sep] + rest;
      } else {
        rest := SplitHead(s[1..], sep);
        assert s == [s[0]] + s[1..];
        if |tail| > 1 {
          assert s == ([s[0]] + tail[0]) + [sep] + rest;
        }
      }
    }
  }

  /** Three parts are three strings without separators, and the separators between them. */
  lemma SplitsInThree(s: string, sep: char)
    ensures var p := Split(s, sep);
            |p| == 3 ==> s == p[0] + [sep] + p[1] + [sep] + p[2] && sep !in p[0] && sep !in p[1] && sep !in p[2]
  {
    hide Split;
    var p := Split(s, sep);
    var rest := SplitHead(s, sep);
    if |p| == 3 {
      SplitsInTwo(rest, sep);
      assert p[1..][0] == p[1] && p[1..][1] == p[2];
      assert s == p[0] + [sep] + (p[1] + [sep] + p[2]);
    }
  }

  lemma SplitsInTwo(s: string, sep: char)
    ensures var p := Split(s, sep);
            |p| == 2 ==> s == p[0] + [sep] + p[1] && sep !in p[0] && sep !in p[1]
  {
    hide Split;
    var p := Split(s, sep);
    var rest := SplitHead(s, sep);
    if |p| == 2 {
      var last := SplitHead(rest, sep);
      assert p[1..][0] == p[1];
    }
  }

  lemma SplitTwo(a: string, b: string, sep: char)
    requires sep !in a && sep !in b
    ensures Split(a + [sep] + b, sep) == [a, b]
  {
    SplitFirst(a, sep, b);
    SplitWithout(b, sep);
  }

  /** `strings.SplitN(s, sep, 2)`: None when the separator does not occur. */
  function Cut(s: string, sep: char): Option<(string, string)> {
    if s == [] then None
    else if s[0] == sep then Some(([], s[1..]))
    else match Cut(s[1..], sep)
      case None => None
      case Some((before, after)) => Some(([s[0]] + before, after))
  }

  lemma {:induction false} CutAtFirst(before: string, sep: char, after: string)
    requires sep !in before
    ensures Cut(before + [sep] + after, sep) == Some((before, after))
  {
    var s := before + [sep] + after;
    if before == [] {
      assert s[1..] == after;
    } else {
      CutAtFirst(before[1..], sep, after);
      assert s[1..] == before[1..] + [sep] + after;
      assert [s[0]] + before[1..] == before;
    }
  }

  /** A string is cut exactly at its first separator, if it has one. */
  lemma {:induction false} CutIsExact(s: string, sep: char)
    ensures Cut(s, sep).None? <==> sep !in s
    ensures Cut(s, sep).Some? ==> s == Cut(s, sep).value.0 + [sep] + Cut(s, sep).value.1 && sep !in Cut(s, sep).value.0
  {
    if s != [] {
      CutIsExact(s[1..], sep);
      assert s == [s[0]] + s[1..];
    }
  }

  /** Two strings `a + [sep] + x` and `b + [sep] + y` agree only where their separator-free tails agree. */
  lemma LastFieldUnique(a: string, x: string, b: string, y: string, sep: char)
    requires sep !in x && sep !in y
    requires a + [sep] + x == b + [sep] + y
    ensures a == b && x == y
  {
    var s, t := a + [sep] + x, b + [sep] + y;
    assert s[|a|] == sep && t[|b|] == sep;
    assert |x| == |y|;
    assert a == s[..|a|] == t[..|b|] == b;
    assert x == s[|a| + 1..] == t[|b| + 1..] == y;
  }

  // ----- finite sets -----

  lemma {:induction false} SubsetSize<T>(a: set<T>, b: set<T>)
    requires a <= b
    ensures |a| <= |b|
  {
    if a != {} {
      var x :| x in a;
      SubsetSize(a - {x}, b - {x});
    }
  }
}

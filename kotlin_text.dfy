/** The few operations on Kotlin strings that the reservation code uses:
    the natural order of `String.compareTo` (behind `sorted()`, `first()` and
    `last()`), `substringBefore`/`substringAfter` with a one-character delimiter,
    `toIntOrNull()`, and `String.format("%02d:00", h)` for the hour values the
    client can produce. */
module KotlinText {
  import opened Collections
  import opened KotlinInt

  // ---------------------------------------------------------------------------
  // String order

  /** `a.compareTo(b) < 0`: the first differing character decides; a proper
      prefix comes first. */
  predicate LexLess(a: string, b: string)
    decreases |a|
  {
    if |a| == 0 then |b| > 0
    else if |b| == 0 then false
    else if a[0] != b[0] then a[0] < b[0]
    else LexLess(a[1..], b[1..])
  }

  /** `a.compareTo(b) <= 0`. */
  predicate LexLe(a: string, b: string)
  {
    a == b || LexLess(a, b)
  }

  lemma {:induction false} LexLessIrreflexive(a: string)
    ensures !LexLess(a, a)
  {
    if |a| > 0 {
      LexLessIrreflexive(a[1..]);
    }
  }

  lemma {:induction false} LexLessTransitive(a: string, b: string, c: string)
    requires LexLess(a, b) && LexLess(b, c)
    ensures LexLess(a, c)
    decreases |a|
  {
    if |a| > 0 && a[0] == b[0] && b[0] == c[0] {
      LexLessTransitive(a[1..], b[1..], c[1..]);
    }
  }

  lemma {:induction false} LexLessTotal(a: string, b: string)
    requires a != b
    ensures LexLess(a, b) || LexLess(b, a)
    decreases |a|
  {
    if |a| > 0 && |b| > 0 && a[0] == b[0] {
      assert a == [a[0]] + a[1..] && b == [b[0]] + b[1..];
      LexLessTotal(a[1..], b[1..]);
    }
  }

  lemma LexLessAsymmetric(a: string, b: string)
    requires LexLess(a, b)
    ensures !LexLess(b, a)
  {
    if LexLess(b, a) {
      LexLessTransitive(a, b, a);
      LexLessIrreflexive(a);
    }
  }

  lemma LexLeTransitive(a: string, b: string, c: string)
    requires LexLe(a, b) && LexLe(b, c)
    ensures LexLe(a, c)
  {
    if a != b && b != c {
      LexLessTransitive(a, b, c);
    }
  }

  lemma LexLeAntisymmetric(a: string, b: string)
    requires LexLe(a, b) && LexLe(b, a)
    ensures a == b
  {
    if a != b {
      LexLessAsymmetric(a, b);
    }
  }

  /** Strings of equal length compare as their first differing position says,
      whatever follows them. */
  lemma {:induction false} LexLessEqualLengthPrefix(a: string, b: string, x: string, y: string)
    requires |a| == |b| && LexLess(a, b)
    ensures LexLess(a + x, b + y)
    decreases |a|
  {
    if a[0] == b[0] {
      assert (a + x)[1..] == a[1..] + x && (b + y)[1..] == b[1..] + y;
      LexLessEqualLengthPrefix(a[1..], b[1..], x, y);
    }
  }

  // ---------------------------------------------------------------------------
  // `sorted().first()` and `sorted().last()`

  /** The first element of `s.sorted()`: the least element under `compareTo`. */
  function MinOf(s: seq<string>): (m: string)
    requires |s| > 0
    ensures m in s
    ensures forall x | x in s :: LexLe(m, x)
  {
    if |s| == 1 then s[0]
    else
      var rest := MinOf(s[1..]);
      assert s == [s[0]] + s[1..];
      if LexLe(s[0], rest) then
        LexLeBelowAll(s[0], rest, s[1..]);
        s[0]
      else
        LexLessTotal(s[0], rest);
        rest
  }

  /** The last element of `s.sorted()`: the greatest element under `compareTo`. */
  function MaxOf(s: seq<string>): (m: string)
    requires |s| > 0
    ensures m in s
    ensures forall x | x in s :: LexLe(x, m)
  {
    if |s| == 1 then s[0]
    else
      var rest := MaxOf(s[1..]);
      assert s == [s[0]] + s[1..];
      if LexLe(rest, s[0]) then
        LexLeAboveAll(rest, s[0], s[1..]);
        s[0]
      else
        LexLessTotal(s[0], rest);
        rest
  }

  lemma LexLeBelowAll(a: string, b: string, t: seq<string>)
    requires LexLe(a, b) && forall x | x in t :: LexLe(b, x)
    ensures forall x | x in t :: LexLe(a, x)
  {
    forall x | x in t ensures LexLe(a, x) {
      LexLeTransitive(a, b, x);
    }
  }

  lemma LexLeAboveAll(b: string, a: string, t: seq<string>)
    requires LexLe(b, a) && forall x | x in t :: LexLe(x, b)
    ensures forall x | x in t :: LexLe(x, a)
  {
    forall x | x in t ensures LexLe(x, a) {
      LexLeTransitive(x, b, a);
    }
  }

  /** An element below all others is the minimum. */
  lemma MinOfUnique(s: seq<string>, m: string)
    requires m in s && forall x | x in s :: LexLe(m, x)
    ensures MinOf(s) == m
  {
    LexLeAntisymmetric(m, MinOf(s));
  }

  /** An element above all others is the maximum. */
  lemma MaxOfUnique(s: seq<string>, m: string)
    requires m in s && forall x | x in s :: LexLe(x, m)
    ensures MaxOf(s) == m
  {
    LexLeAntisymmetric(m, MaxOf(s));
  }

  /** Minimum and maximum depend only on which strings occur, not on their
      order or multiplicity. */
  lemma MinMaxOfSameElements(s: seq<string>, t: seq<string>)
    requires |s| > 0
    requires forall x :: x in s <==> x in t
    ensures |t| > 0 && MinOf(s) == MinOf(t) && MaxOf(s) == MaxOf(t)
  {
    assert s[0] in t;
    MinOfUnique(t, MinOf(s));
    MaxOfUnique(t, MaxOf(s));
  }

  // ---------------------------------------------------------------------------
  // substringBefore / substringAfter

  /** `s.substringBefore(c)`: the part before the first `c`, or all of `s` when
      there is none. */
  function SubstringBefore(s: string, c: char): (r: string)
    ensures r <= s && c !in r
    ensures c in s ==> |r| < |s| && s[|r|] == c
    ensures c !in s ==> r == s
  {
    var i := IndexOf(s, c);
    if i == -1 then s else s[..i]
  }

  /** `s.substringAfter(c)`: the part after the first `c`, or all of `s` when
      there is none. */
  function SubstringAfter(s: string, c: char): (r: string)
    ensures c in s ==> s == SubstringBefore(s, c) + [c] + r
    ensures c !in s ==> r == s
  {
    var i := IndexOf(s, c);
    if i == -1 then s
    else
      assert s == s[..i] + [c] + s[i + 1..];
      s[i + 1..]
  }

  /** Splitting `a + [c] + b` at its first `c` gives back `a` and `b`. */
  lemma SplitAtFirst(a: string, c: char, b: string)
    requires c !in a
    ensures SubstringBefore(a + [c] + b, c) == a
    ensures SubstringAfter(a + [c] + b, c) == b
  {
    var s := a + [c] + b;
    assert s[|a|] == c;
    assert SubstringBefore(s, c) == a;
    assert s == a + [c] + SubstringAfter(s, c);
  }

  // ---------------------------------------------------------------------------
  // Digits, `toIntOrNull()` and "%02d"

  predicate IsDigit(ch: char)
  {
    '0' <= ch <= '9'
  }

  predicate AllDigits(s: string)
  {
    forall i | 0 <= i < |s| :: IsDigit(s[i])
  }

  function DigitChar(d: int): (ch: char)
    requires 0 <= d <= 9
    ensures IsDigit(ch) && ch as int - '0' as int == d
  {
    ('0' as int + d) as char
  }

  /** The value of a run of decimal digits, most significant first. */
  function DigitsValue(s: string): nat
    requires AllDigits(s)
    decreases |s|
  {
    if s == [] then 0
    else DigitsValue(s[..|s| - 1]) * 10 + (s[|s| - 1] as int - '0' as int)
  }

  /** Kotlin's `String.toIntOrNull()` (radix 10): an optional sign, one or more
      digits, and a value that fits an `Int`; anything else is null. */
  function ToIntOrNull(s: string): Option<Int32>
  {
    if |s| == 0 then None
    else if s[0] == '-' || s[0] == '+' then
      var digits := s[1..];
      if |digits| == 0 || !AllDigits(digits) then None
      else
        var v: int := if s[0] == '-' then -(DigitsValue(digits) as int) else DigitsValue(digits);
        if -0x8000_0000 <= v < 0x8000_0000 then Some(v) else None
    else if AllDigits(s) then
      var v := DigitsValue(s);
      if v < 0x8000_0000 then Some(v) else None
    else None
  }

  lemma TwoDigitsValue(hi: char, lo: char)
    requires IsDigit(hi) && IsDigit(lo)
    ensures DigitsValue([hi, lo]) == (hi as int - '0' as int) * 10 + (lo as int - '0' as int)
  {
    var s := [hi, lo];
    assert s[..1] == [hi] && [hi][..0] == [];
    assert DigitsValue([hi]) == hi as int - '0' as int;
    assert DigitsValue(s) == DigitsValue([hi]) * 10 + (lo as int - '0' as int);
  }

  /** `String.format("%02d", n)` for the values -23..23: at least two
      characters, zero-padded; a minus sign counts towards the width. */
  function Pad2(n: int): (r: string)
    requires -23 <= n <= 23
    ensures 2 <= |r| <= 3 && ':' !in r && '~' !in r
    ensures 0 <= n ==> |r| == 2 && AllDigits(r)
  {
    if n >= 0 then [DigitChar(n / 10), DigitChar(n % 10)]
    else if n > -10 then ['-', DigitChar(-n)]
    else ['-', DigitChar((-n) / 10), DigitChar((-n) % 10)]
  }

  /** `String.format("%02d:00", n)`. */
  function HourLabel(n: int): (r: string)
    requires -23 <= n <= 23
    ensures '~' !in r
  {
    Pad2(n) + ":00"
  }

  /** The characters of an hour label of the day. */
  lemma HourLabelDigits(n: int)
    requires 0 <= n <= 23
    ensures |HourLabel(n)| == 5
    ensures HourLabel(n) == [DigitChar(n / 10), DigitChar(n % 10), ':', '0', '0']
  {
  }

  /** Parsing what "%02d" printed gives the number back. */
  lemma ParsePad2(n: int)
    requires -23 <= n <= 23
    ensures ToIntOrNull(Pad2(n)) == Some(n)
  {
    var s := Pad2(n);
    if n >= 0 {
      TwoDigitsValue(DigitChar(n / 10), DigitChar(n % 10));
    } else if n > -10 {
      assert s[1..] == [DigitChar(-n)];
      assert DigitsValue(s[1..]) == -n by {
        assert s[1..][..0] == [];
      }
    } else {
      var d := s[1..];
      assert d == [DigitChar((-n) / 10), DigitChar((-n) % 10)];
      TwoDigitsValue(DigitChar((-n) / 10), DigitChar((-n) % 10));
    }
  }

  /** The hour is the integer before the first ':' of an hour label. */
  lemma HourLabelHour(n: int)
    requires -23 <= n <= 23
    ensures SubstringBefore(HourLabel(n), ':') == Pad2(n)
    ensures ToIntOrNull(SubstringBefore(HourLabel(n), ':')) == Some(n)
  {
    assert HourLabel(n) == Pad2(n) + [':'] + "00";
    SplitAtFirst(Pad2(n), ':', "00");
    ParsePad2(n);
  }

  /** Different hours give different labels. */
  lemma HourLabelInjective(i: int, j: int)
    requires -23 <= i <= 23 && -23 <= j <= 23
    requires HourLabel(i) == HourLabel(j)
    ensures i == j
  {
    HourLabelHour(i);
    HourLabelHour(j);
  }

  /** For the hours of one day, string order is time order. */
  lemma HourLabelOrdered(i: int, j: int)
    requires 0 <= i < j <= 23
    ensures LexLess(HourLabel(i), HourLabel(j))
  {
    var a, b := Pad2(i), Pad2(j);
    assert LexLess(a, b) by {
      if i / 10 == j / 10 {
        assert a[1..] == [DigitChar(i % 10)] && b[1..] == [DigitChar(j % 10)];
      }
    }
    LexLessEqualLengthPrefix(a, b, ":00", ":00");
  }
}

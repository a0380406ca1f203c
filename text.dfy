/** Characters, decimal digits and Python's ordering on `str`.

    The scripts compare file names with `max` (code-point lexicographic
    order), spell dates as zero-padded digit groups and turn cell values
    into text with f-strings; this module holds the pieces of text handling
    those need, with the facts about them the other modules rely on.
 */
module Text {

  datatype Option<T> = None | Some(value: T)

  predicate IsDigit(c: char) {
    '0' <= c <= '9'
  }

  predicate AllDigits(s: string) {
    forall i :: 0 <= i < |s| ==> IsDigit(s[i])
  }

  function DigitValue(c: char): nat
    requires IsDigit(c)
  {
    (c as int - '0' as int) as nat
  }

  function DigitChar(n: nat): (c: char)
    requires n < 10
    ensures IsDigit(c) && DigitValue(c) == n
  {
    ('0' as int + n) as char
  }

  function Pow10(w: nat): (p: nat)
    ensures p >= 1
  {
    if w == 0 then 1 else 10 * Pow10(w - 1)
  }

  /** The number a string of decimal digits spells, most significant digit first. */
  function DigitsValue(s: string): (n: nat)
    requires AllDigits(s)
    ensures n < Pow10(|s|)
  {
    if s == [] then 0
    else
      var init := s[..|s| - 1];
      assert AllDigits(init);
      DigitsValue(init) * 10 + DigitValue(s[|s| - 1])
  }

  /** The `w` low-order decimal digits of `n`, zero-padded: the text `%0wd` produces for `n < 10^w`. */
  function Padded(n: nat, w: nat): (s: string)
    ensures |s| == w && AllDigits(s)
  {
    if w == 0 then [] else Padded(n / 10, w - 1) + [DigitChar(n % 10)]
  }

  /** Reading back a padded number gives the number, when it fits in the width. */
  lemma {:induction false} DigitsValueOfPadded(n: nat, w: nat)
    requires n < Pow10(w)
    ensures DigitsValue(Padded(n, w)) == n
  {
    if w > 0 {
      var s := Padded(n, w);
      assert s[..w - 1] == Padded(n / 10, w - 1);
      DigitsValueOfPadded(n / 10, w - 1);
    }
  }

  /** Padding the value of a digit string to its own length gives the string back. */
  lemma {:induction false} PaddedOfDigitsValue(s: string)
    requires AllDigits(s)
    ensures Padded(DigitsValue(s), |s|) == s
  {
    if s != [] {
      var init := s[..|s| - 1];
      assert AllDigits(init);
      var n := DigitsValue(s);
      assert n / 10 == DigitsValue(init) && n % 10 == DigitValue(s[|s| - 1]);
      PaddedOfDigitsValue(init);
      assert s == init + [s[|s| - 1]];
    }
  }

  /** Python's `a < b` on `str`: compare code points from the left; a proper prefix comes first. */
  predicate Less(a: string, b: string) {
    if a == [] then b != []
    else if b == [] then false
    else if a[0] != b[0] then a[0] < b[0]
    else Less(a[1..], b[1..])
  }

  /** Python's `a <= b` on `str`. */
  predicate LessEq(a: string, b: string) {
    a == b || Less(a, b)
  }

  lemma {:induction false} LessIrreflexive(a: string)
    ensures !Less(a, a)
  {
    if a != [] {
      LessIrreflexive(a[1..]);
    }
  }

  /** Two different strings are ordered one way, and only one way. */
  lemma {:induction false} LessTrichotomy(a: string, b: string)
    ensures a == b || Less(a, b) || Less(b, a)
    ensures !(Less(a, b) && Less(b, a))
  {
    if a != [] && b != [] && a[0] == b[0] {
      LessTrichotomy(a[1..], b[1..]);
      if a[1..] == b[1..] {
        assert a == [a[0]] + a[1..] && b == [b[0]] + b[1..];
      }
    }
  }

  lemma {:induction false} LessTransitive(a: string, b: string, c: string)
    requires Less(a, b) && Less(b, c)
    ensures Less(a, c)
  {
    if a != [] && a[0] == b[0] && b[0] == c[0] {
      LessTransitive(a[1..], b[1..], c[1..]);
    }
  }

  /** Comparing two concatenations whose first parts have equal length
      compares the first parts, and the second parts only on a tie. */
  lemma {:induction false} LessAppend(a: string, x: string, b: string, y: string)
    requires |a| == |b|
    ensures Less(a + x, b + y) <==> Less(a, b) || (a == b && Less(x, y))
  {
    if a == [] {
      assert a + x == x && b + y == y;
    } else {
      assert (a + x)[0] == a[0] && (b + y)[0] == b[0];
      assert (a + x)[1..] == a[1..] + x && (b + y)[1..] == b[1..] + y;
      LessAppend(a[1..], x, b[1..], y);
      if a[0] == b[0] && a[1..] == b[1..] {
        assert a == [a[0]] + a[1..] && b == [b[0]] + b[1..];
      }
    }
  }

  /** Fixed-width digit strings sort as the numbers they spell. */
  lemma {:induction false} PaddedLess(n: nat, m: nat, w: nat)
    requires n < Pow10(w) && m < Pow10(w)
    ensures Less(Padded(n, w), Padded(m, w)) <==> n < m
    ensures Padded(n, w) == Padded(m, w) <==> n == m
  {
    if w == 0 {
      assert n == 0 && m == 0;
    } else {
      PaddedLess(n / 10, m / 10, w - 1);
      LessAppend(Padded(n / 10, w - 1), [DigitChar(n % 10)], Padded(m / 10, w - 1), [DigitChar(m % 10)]);
      assert Less([DigitChar(n % 10)], [DigitChar(m % 10)]) <==> n % 10 < m % 10;
      assert n == 10 * (n / 10) + n % 10 && m == 10 * (m / 10) + m % 10;
      if Padded(n, w) == Padded(m, w) {
        DigitsValueOfPadded(n, w);
        DigitsValueOfPadded(m, w);
      }
    }
  }

  /** Python's `str(n)` for a non-negative integer: no leading zeros, at least one digit. */
  function NaturalText(n: nat): (s: string)
    ensures |s| >= 1 && AllDigits(s)
    decreases n
  {
    if n < 10 then [DigitChar(n)] else NaturalText(n / 10) + [DigitChar(n % 10)]
  }

  /** `str(n)` reads back as `n`, and starts with a non-zero digit unless `n` is zero. */
  lemma {:induction false} NaturalTextRoundTrip(n: nat)
    ensures DigitsValue(NaturalText(n)) == n
    ensures n > 0 ==> NaturalText(n)[0] != '0'
    decreases n
  {
    if n >= 10 {
      var s := NaturalText(n);
      assert s[..|s| - 1] == NaturalText(n / 10);
      NaturalTextRoundTrip(n / 10);
      assert s[0] == NaturalText(n / 10)[0];
    }
  }

  /** Python's `str(n)` for any integer. */
  function IntText(n: int): (s: string)
    ensures (n < 0) <==> (|s| > 0 && s[0] == '-')
    ensures n >= 0 ==> AllDigits(s) && DigitsValue(s) == n
    ensures n < 0 ==> AllDigits(s[1..]) && DigitsValue(s[1..]) == -n
  {
    if n < 0 then
      var t := NaturalText(-n);
      NaturalTextRoundTrip(-n);
      assert ("-" + t)[1..] == t;
      "-" + t
    else
      NaturalTextRoundTrip(n);
      NaturalText(n)
  }
}

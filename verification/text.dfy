/** Character and string helpers: digits, zero padding, ASCII case mapping,
    substring search and the lexicographic order Rust uses for `String`. */
module Text {

  predicate IsDigit(c: char) {
    '0' <= c <= '9'
  }

  predicate AllDigits(s: string) {
    forall i :: 0 <= i < |s| ==> IsDigit(s[i])
  }

  function DigitValue(c: char): nat
    requires IsDigit(c)
  {
    (c as int) - ('0' as int)
  }

  function DigitChar(n: nat): (c: char)
    requires n < 10
    ensures IsDigit(c) && DigitValue(c) == n
  {
    (('0' as int) + n) as char
  }

  function Pow10(n: nat): (p: nat)
    ensures p >= 1
  {
    if n == 0 then 1 else 10 * Pow10(n - 1)
  }

  /** The number a string of decimal digits denotes, most significant digit first. */
  function DecimalValue(s: string): nat
    requires AllDigits(s)
  {
    if |s| == 0 then 0 else DigitValue(s[0]) * Pow10(|s| - 1) + DecimalValue(s[1..])
  }

  /** `n` written in decimal, left-padded with zeros to at least `width` digits. */
  function PadDecimal(n: nat, width: nat): (s: string)
    ensures AllDigits(s) && |s| >= width && |s| >= 1
    decreases width + n
  {
    if n < 10 && width <= 1 then [DigitChar(n)]
    else PadDecimal(n / 10, if width == 0 then 0 else width - 1) + [DigitChar(n % 10)]
  }

  /** Two-digit zero-padded rendering, as chrono's `%H`, `%M`, `%m`, `%d` print. */
  function Pad2(n: nat): (s: string)
    requires n < 100
    ensures |s| == 2 && AllDigits(s)
  {
    [DigitChar(n / 10), DigitChar(n % 10)]
  }

  /** A number below `10^w` renders in exactly `w` digits. */
  lemma {:induction false} PadDecimalWidth(n: nat, w: nat)
    requires w >= 1 && n < Pow10(w)
    ensures |PadDecimal(n, w)| == w
  {
    if !(n < 10 && w <= 1) {
      assert w >= 2;
      PadDecimalWidth(n / 10, w - 1);
    }
  }

  lemma {:induction false} DecimalValueBound(s: string)
    requires AllDigits(s)
    ensures DecimalValue(s) < Pow10(|s|)
  {
    if |s| > 0 {
      assert AllDigits(s[1..]) by {
        forall i | 0 <= i < |s[1..]| ensures IsDigit(s[1..][i]) {
          assert s[1..][i] == s[i + 1];
        }
      }
      DecimalValueBound(s[1..]);
      var d, p := DigitValue(s[0]), Pow10(|s| - 1);
      assert DecimalValue(s) == d * p + DecimalValue(s[1..]);
      NineTimesBound(d, p);
      assert Pow10(|s|) == 10 * p;
    }
  }

  lemma NineTimesBound(d: nat, p: nat)
    requires d <= 9
    ensures d * p <= 9 * p
  {
  }

  /** Appending a digit multiplies the value by ten and adds the digit. */
  lemma {:induction false} DecimalValueSnoc(s: string, c: char)
    requires AllDigits(s) && IsDigit(c)
    ensures AllDigits(s + [c])
    ensures DecimalValue(s + [c]) == 10 * DecimalValue(s) + DigitValue(c)
  {
    var t := s + [c];
    assert AllDigits(t) by {
      forall i | 0 <= i < |t| ensures IsDigit(t[i]) {
        if i < |s| { assert t[i] == s[i]; }
      }
    }
    if |s| == 0 {
      assert t == [c];
    } else {
      assert t[0] == s[0] && t[1..] == s[1..] + [c];
      assert AllDigits(s[1..]) by {
        forall i | 0 <= i < |s[1..]| ensures IsDigit(s[1..][i]) {
          assert s[1..][i] == s[i + 1];
        }
      }
      DecimalValueSnoc(s[1..], c);
      var d, p := DigitValue(s[0]), Pow10(|s| - 1);
      assert Pow10(|t| - 1) == 10 * p;
      ScaleByTen(d, p);
      assert DecimalValue(t) == d * (10 * p) + 10 * DecimalValue(s[1..]) + DigitValue(c);
      assert DecimalValue(s) == d * p + DecimalValue(s[1..]);
    }
  }

  lemma ScaleByTen(d: nat, p: nat)
    ensures d * (10 * p) == 10 * (d * p)
  {
  }

  /** A padded numeral denotes the number it renders. */
  lemma {:induction false} PadDecimalValue(n: nat, w: nat)
    ensures DecimalValue(PadDecimal(n, w)) == n
    decreases w + n
  {
    if n < 10 && w <= 1 {
      assert PadDecimal(n, w) == [DigitChar(n)];
      assert [DigitChar(n)][1..] == [];
    } else {
      var w' := if w == 0 then 0 else w - 1;
      PadDecimalValue(n / 10, w');
      DecimalValueSnoc(PadDecimal(n / 10, w'), DigitChar(n % 10));
    }
  }

  /** A two-digit rendering denotes the number it renders. */
  lemma Pad2Value(n: nat)
    requires n < 100
    ensures DecimalValue(Pad2(n)) == n
  {
    var s := Pad2(n);
    assert Pow10(1) == 10;
    assert s[1..] == [s[1]] && [s[1]][1..] == [];
    assert DecimalValue([s[1]]) == DigitValue(s[1]);
    assert DecimalValue(s) == DigitValue(s[0]) * 10 + DigitValue(s[1]);
  }

  /** Re-rendering the value of a two-digit numeral gives the numeral back. */
  lemma Pad2OfDigits(s: string)
    requires |s| == 2 && AllDigits(s)
    ensures DigitValue(s[0]) * 10 + DigitValue(s[1]) < 100
    ensures Pad2(DigitValue(s[0]) * 10 + DigitValue(s[1])) == s
  {
    var n := DigitValue(s[0]) * 10 + DigitValue(s[1]);
    assert n / 10 == DigitValue(s[0]) && n % 10 == DigitValue(s[1]);
  }

  lemma LeadingDigitDominates(da: nat, db: nat, ra: nat, rb: nat, p: nat)
    requires da < db && ra < p
    ensures da * p + ra < db * p + rb
  {
    assert (da + 1) * p <= db * p;
  }

  /** Rust's `<` on `String`: byte-wise lexicographic order of the UTF-8
      encoding, which is the lexicographic order of the code points. */
  predicate LexLess(a: string, b: string)
    decreases |a|
  {
    if |a| == 0 then |b| > 0
    else if |b| == 0 then false
    else if a[0] != b[0] then a[0] < b[0]
    else LexLess(a[1..], b[1..])
  }

  /** On zero-padded numerals of equal width the string order is the numeric order,
      which is why comparing "HHMM" strings compares clock times. */
  lemma {:induction false} LexLessIsNumericOrder(a: string, b: string)
    requires AllDigits(a) && AllDigits(b) && |a| == |b|
    ensures LexLess(a, b) <==> DecimalValue(a) < DecimalValue(b)
  {
    if |a| > 0 {
      var p := Pow10(|a| - 1);
      var da, db := DigitValue(a[0]), DigitValue(b[0]);
      assert DecimalValue(a) == da * p + DecimalValue(a[1..]);
      assert DecimalValue(b) == db * p + DecimalValue(b[1..]);
      DecimalValueBound(a[1..]);
      DecimalValueBound(b[1..]);
      if a[0] == b[0] {
        LexLessIsNumericOrder(a[1..], b[1..]);
      } else if a[0] < b[0] {
        LeadingDigitDominates(da, db, DecimalValue(a[1..]), DecimalValue(b[1..]), p);
      } else {
        LeadingDigitDominates(db, da, DecimalValue(b[1..]), DecimalValue(a[1..]), p);
      }
    }
  }

  function LowerChar(c: char): char {
    if 'A' <= c <= 'Z' then ((c as int) + 32) as char else c
  }

  function UpperChar(c: char): char {
    if 'a' <= c <= 'z' then ((c as int) - 32) as char else c
  }

  /** `to_lowercase`, restricted to the ASCII letters. */
  function AsciiLower(s: string): (r: string)
    ensures |r| == |s|
    ensures forall i :: 0 <= i < |s| ==> r[i] == LowerChar(s[i])
  {
    seq(|s|, i requires 0 <= i < |s| => LowerChar(s[i]))
  }

  /** `to_uppercase`, restricted to the ASCII letters. */
  function AsciiUpper(s: string): (r: string)
    ensures |r| == |s|
    ensures forall i :: 0 <= i < |s| ==> r[i] == UpperChar(s[i])
  {
    seq(|s|, i requires 0 <= i < |s| => UpperChar(s[i]))
  }

  /** Substring search, as `str::contains` with a `&str` pattern. */
  predicate Contains(s: string, pattern: string)
    decreases |s|
  {
    pattern <= s || (|s| > 0 && Contains(s[1..], pattern))
  }

  /** A string lacking one of the pattern's characters does not contain it. */
  lemma {:induction false} MissingCharNotContained(s: string, pattern: string, j: nat)
    requires j < |pattern| && pattern[j] !in s
    ensures !Contains(s, pattern)
  {
    assert j < |s| ==> s[j] != pattern[j];
    if |s| > 0 {
      assert forall c :: c in s[1..] ==> c in s;
      MissingCharNotContained(s[1..], pattern, j);
    }
  }
}

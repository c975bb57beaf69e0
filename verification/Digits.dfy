/** Unsigned decimal text, as Rust's formatter writes it and its parser reads it. */
module Digits {

  predicate IsDigit(c: char) {
    '0' <= c <= '9'
  }

  predicate AllDigits(s: string) {
    forall i :: 0 <= i < |s| ==> IsDigit(s[i])
  }

  function DigitOf(d: nat): (c: char)
    requires d < 10
    ensures IsDigit(c)
  {
    ('0' as int + d) as char
  }

  function DigitValue(c: char): (d: nat)
    requires IsDigit(c)
    ensures d < 10
  {
    c as int - '0' as int
  }

  /** `{n:0w}`: decimal digits, zero-padded on the left to at least `width`. */
  function Padded(n: nat, width: nat): (s: string)
    ensures |s| > 0 && AllDigits(s)
    decreases n + width
  {
    if n < 10 && width <= 1 then [DigitOf(n)]
    else Padded(n / 10, if width == 0 then 0 else width - 1) + [DigitOf(n % 10)]
  }

  /** `{n}`. */
  function Decimal(n: nat): (s: string)
    ensures |s| > 0 && AllDigits(s)
  {
    Padded(n, 0)
  }

  /** The number a digit string denotes. */
  function Value(s: string): nat
    requires AllDigits(s)
  {
    if s == "" then 0 else Value(s[..|s| - 1]) * 10 + DigitValue(s[|s| - 1])
  }

  function Pow10(k: nat): (p: nat)
    ensures p > 0
  {
    if k == 0 then 1 else 10 * Pow10(k - 1)
  }

  lemma {:induction false} ValueOfPadded(n: nat, width: nat)
    ensures Value(Padded(n, width)) == n
    decreases n + width
  {
    var s := Padded(n, width);
    if n < 10 && width <= 1 {
      assert s[..|s| - 1] == "";
    } else {
      var w := if width == 0 then 0 else width - 1;
      ValueOfPadded(n / 10, w);
      assert s[..|s| - 1] == Padded(n / 10, w);
    }
  }

  /** Padding reaches the width exactly when the number fits, and overruns it otherwise. */
  lemma {:induction false} PaddedLength(n: nat, width: nat)
    requires width > 0
    ensures n < Pow10(width) <==> |Padded(n, width)| == width
    ensures |Padded(n, width)| >= width
  {
    if width == 1 {
      assert Pow10(1) == 10 * Pow10(0);
      if n >= 10 { assert |Padded(n / 10, 0)| > 0; }
    } else {
      PaddedLength(n / 10, width - 1);
    }
  }

  /** Every digit string is the padded form of its value at its own length. */
  lemma {:induction false} PaddedOfValue(s: string)
    requires AllDigits(s) && |s| > 0
    ensures Padded(Value(s), |s|) == s && Value(s) < Pow10(|s|)
  {
    var init := s[..|s| - 1];
    if |s| == 1 {
      assert init == "" && Pow10(1) == 10 * Pow10(0);
    } else {
      PaddedOfValue(init);
      assert Value(s) / 10 == Value(init) && Value(s) % 10 == DigitValue(s[|s| - 1]);
      assert s == init + [s[|s| - 1]];
    }
  }

  /** Formatting without padding never writes a superfluous leading zero. */
  lemma {:induction false} DecimalCanonical(n: nat)
    ensures Decimal(n)[0] == '0' ==> n == 0 && |Decimal(n)| == 1
  {
    if n >= 10 { DecimalCanonical(n / 10); }
  }

  lemma {:induction false} DecimalLength(n: nat, width: nat)
    requires width > 0 && n < Pow10(width)
    ensures |Decimal(n)| <= width
  {
    assert Pow10(1) == 10 * Pow10(0);
    if n >= 10 && width > 1 { DecimalLength(n / 10, width - 1); }
  }

  lemma DigitsAre(d: nat)
    requires d < 10
    ensures DigitOf(d) == "0123456789"[d]
  {
    var c := "0123456789"[d];
    assert c as int == 48 + d && (c as int) as char == c;
  }

  lemma DecimalExamples()
    ensures Decimal(0) == "0" && Decimal(9) == "9" && Decimal(10) == "10" && Decimal(255) == "255"
    ensures Padded(42, 5) == "00042" && Padded(42, 1) == "42"
  {
    assert Padded(25, 0) == "25" && Padded(4, 0) == "4";
    assert Padded(0, 3) == Padded(0, 2) + "0" && Padded(0, 2) == Padded(0, 1) + "0";
    assert Padded(4, 4) == Padded(0, 3) + "4";
  }

  /** Zeros before a number's digits do not change it. */
  lemma {:induction false} LeadingZeros(zeros: string, s: string)
    requires AllDigits(s) && forall i | 0 <= i < |zeros| :: zeros[i] == '0'
    ensures AllDigits(zeros + s) && Value(zeros + s) == Value(s)
    decreases |zeros| + |s|
  {
    if s != "" {
      var n := |s| - 1;
      assert (zeros + s)[..|zeros| + n] == zeros + s[..n];
      LeadingZeros(zeros, s[..n]);
    } else if zeros != "" {
      var n := |zeros| - 1;
      assert zeros + s == zeros && zeros[..n] + s == zeros[..n];
      LeadingZeros(zeros[..n], s);
    }
  }

  // ----- runs of digits -----

  /** How many digits a text begins with. */
  function DigitCount(s: string): (n: nat)
    ensures n <= |s| && AllDigits(s[..n])
    ensures n < |s| ==> !IsDigit(s[n])
  {
    if s != "" && IsDigit(s[0]) then
      var m := DigitCount(s[1..]);
      assert forall i | 0 < i <= m :: s[i] == s[1..][i - 1] == s[1..][..m][i - 1];
      1 + m
    else 0
  }

  predicate NoDigit(post: string) {
    post != "" ==> !IsDigit(post[0])
  }

  lemma {:induction false} DigitCountOf(digits: string, post: string)
    requires AllDigits(digits) && NoDigit(post)
    ensures DigitCount(digits + post) == |digits|
  {
    if digits == "" {
      assert digits + post == post;
    } else {
      assert (digits + post)[1..] == digits[1..] + post;
      assert forall i | 0 <= i < |digits| - 1 :: digits[1..][i] == digits[i + 1];
      DigitCountOf(digits[1..], post);
    }
  }

  /** A digit string without a superfluous zero is the decimal form of its value. */
  lemma {:induction false} DecimalOfValue(s: string)
    requires AllDigits(s) && |s| > 0 && (s[0] == '0' ==> |s| == 1)
    ensures Decimal(Value(s)) == s && (|s| > 1 ==> Value(s) > 0)
  {
    var front, last := s[..|s| - 1], DigitValue(s[|s| - 1]);
    if |s| == 1 {
      assert front == "";
    } else {
      DecimalOfValue(front);
      if |front| == 1 { assert Value(front) == DigitValue(s[0]) by { assert front[..0] == ""; } }
      assert Value(s) / 10 == Value(front) && Value(s) % 10 == last;
      assert s == front + [s[|s| - 1]];
    }
  }
}

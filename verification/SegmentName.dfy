/** File names of closed spool segments: `segment_name` and `parse_segment_name`. */
module SegmentName {
  import opened Digits
  import opened SortedMap
  import opened Wrappers

  const PREFIX := "seg-"
  const SUFFIX := ".jsonl"
  const WIDTH: nat := 16

  /** The first sequence number whose name no longer has sixteen digits. */
  const LIMIT: nat := 10_000_000_000_000_000

  function Name(n: nat): string {
    PREFIX + Padded(n, WIDTH) + SUFFIX
  }

  function Parse(name: string): (r: Option<nat>) {
    if !(PREFIX <= name) then None else
    var rest := name[|PREFIX|..];
    if |rest| < |SUFFIX| || rest[|rest| - |SUFFIX|..] != SUFFIX then None else
    var digits := rest[..|rest| - |SUFFIX|];
    if |digits| == WIDTH && AllDigits(digits) then Some(Value(digits)) else None
  }

  lemma LimitIsPow10()
    ensures LIMIT == Pow10(WIDTH)
  {
    assert Pow10(4) == 10000;
    assert Pow10(8) == 100000000;
    assert Pow10(12) == 1000000000000;
  }

  /** Printing then parsing gives the number back exactly while it has at most sixteen digits. */
  lemma ParseName(n: nat)
    ensures Parse(Name(n)) == if n < LIMIT then Some(n) else None
  {
    LimitIsPow10();
    PaddedLength(n, WIDTH);
    ValueOfPadded(n, WIDTH);
    var rest := Name(n)[|PREFIX|..];
    assert rest == Padded(n, WIDTH) + SUFFIX;
    assert rest[|rest| - |SUFFIX|..] == SUFFIX;
    assert rest[..|rest| - |SUFFIX|] == Padded(n, WIDTH);
  }

  /** Only names this spool could have produced are accepted. */
  lemma NameParse(name: string)
    ensures Parse(name).Some? ==> Parse(name).value < LIMIT && Name(Parse(name).value) == name
  {
    if Parse(name).Some? {
      LimitIsPow10();
      var rest := name[|PREFIX|..];
      var digits := rest[..|rest| - |SUFFIX|];
      PaddedOfValue(digits);
      assert rest == digits + rest[|rest| - |SUFFIX|..];
      assert name == name[..|PREFIX|] + rest;
    }
  }

  /** What a name looks like: the number in sixteen digits. */
  lemma NameIs(n: nat, zeros: string)
    requires |zeros| + |Decimal(n)| == 16 && forall i | 0 <= i < |zeros| :: zeros[i] == '0'
    ensures Name(n) == "seg-" + (zeros + Decimal(n)) + ".jsonl"
  {
    LeadingZeros(zeros, Decimal(n));
    ValueOfPadded(n, 0);
    PaddedOfValue(zeros + Decimal(n));
  }

  lemma NameExample()
    ensures Name(1) == "seg-0000000000000001.jsonl"
  {
    NameIs(1, "000000000000000");
    assert Decimal(1) == "1";
    assert "000000000000000" + "1" == "0000000000000001";
  }

  // ----- directory order -----

  /** Texts that begin with parts of one length compare by those parts first. */
  lemma {:induction false} LessByParts(a: string, b: string, x: string, y: string)
    requires |a| == |b|
    ensures Less(a + x, b + y) <==> if a == b then Less(x, y) else Less(a, b)
  {
    if a == "" {
      assert a + x == x && b + y == y;
    } else {
      assert (a + x)[1..] == a[1..] + x && (b + y)[1..] == b[1..] + y;
      assert a == [a[0]] + a[1..] && b == [b[0]] + b[1..];
      LessByParts(a[1..], b[1..], x, y);
    }
  }

  lemma LastDigits(c: char, d: char)
    requires IsDigit(c) && IsDigit(d)
    ensures Less([c], [d]) <==> DigitValue(c) < DigitValue(d)
  {
  }

  lemma {:induction false} DigitsInOrder(s: string, t: string)
    requires |s| == |t| && AllDigits(s) && AllDigits(t)
    ensures Less(s, t) <==> Value(s) < Value(t)
  {
    if s != "" {
      var n := |s| - 1;
      assert s == s[..n] + [s[n]] && t == t[..n] + [t[n]];
      LessByParts(s[..n], t[..n], [s[n]], [t[n]]);
      LastDigits(s[n], t[n]);
      DigitsInOrder(s[..n], t[..n]);
      SameDigits(s[..n], t[..n]);
    }
  }

  lemma {:induction false} SameDigits(s: string, t: string)
    requires |s| == |t| && AllDigits(s) && AllDigits(t)
    ensures s == t <==> Value(s) == Value(t)
  {
    if s != "" {
      PaddedOfValue(s);
      PaddedOfValue(t);
    }
  }

  /** While sequence numbers have at most sixteen digits, names order as the numbers do. */
  lemma NamesInOrder(m: nat, n: nat)
    requires m < LIMIT && n < LIMIT
    ensures Less(Name(m), Name(n)) <==> m < n
  {
    LimitIsPow10();
    PaddedLength(m, WIDTH);
    PaddedLength(n, WIDTH);
    ValueOfPadded(m, WIDTH);
    ValueOfPadded(n, WIDTH);
    var a, b := Padded(m, WIDTH), Padded(n, WIDTH);
    assert Name(m) == PREFIX + (a + SUFFIX) && Name(n) == PREFIX + (b + SUFFIX);
    LessByParts(PREFIX, PREFIX, a + SUFFIX, b + SUFFIX);
    LessByParts(a, b, SUFFIX, SUFFIX);
    LessIrreflexive(SUFFIX);
    DigitsInOrder(a, b);
  }
}

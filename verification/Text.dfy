/** `str::trim`. */
module Text {

  /** Unicode `White_Space`, which `trim` removes. */
  predicate IsBlank(c: char) {
    var n := c as int;
    || 0x9 <= n <= 0xd || n == 0x20 || n == 0x85 || n == 0xa0 || n == 0x1680 || 0x2000 <= n <= 0x200a
    || n == 0x2028 || n == 0x2029 || n == 0x202f || n == 0x205f || n == 0x3000
  }

  function TrimStart(s: string): string {
    if s != "" && IsBlank(s[0]) then TrimStart(s[1..]) else s
  }

  function TrimEnd(s: string): string {
    if s != "" && IsBlank(s[|s| - 1]) then TrimEnd(s[..|s| - 1]) else s
  }

  function Trim(s: string): string {
    TrimEnd(TrimStart(s))
  }

  /** The twenty-five characters of `White_Space`, one by one. */
  lemma BlankExactly(c: char)
    ensures IsBlank(c) <==>
            || c in "\U{9}\U{A}\U{B}\U{C}\U{D} \U{85}\U{A0}\U{1680}"
            || c in "\U{2000}\U{2001}\U{2002}\U{2003}\U{2004}\U{2005}\U{2006}\U{2007}\U{2008}\U{2009}\U{200A}"
            || c in "\U{2028}\U{2029}\U{202F}\U{205F}\U{3000}"
  {
  }

  predicate AllBlank(s: string) {
    forall i | 0 <= i < |s| :: IsBlank(s[i])
  }

  lemma {:induction false} TrimStartParts(s: string) returns (a: string)
    ensures AllBlank(a) && s == a + TrimStart(s)
    ensures TrimStart(s) != "" ==> !IsBlank(TrimStart(s)[0])
  {
    a := "";
    if s != "" && IsBlank(s[0]) {
      a := TrimStartParts(s[1..]);
      a := [s[0]] + a;
    }
  }

  lemma {:induction false} TrimEndParts(s: string) returns (b: string)
    ensures AllBlank(b) && s == TrimEnd(s) + b
    ensures TrimEnd(s) != "" ==> !IsBlank(TrimEnd(s)[|TrimEnd(s)| - 1])
  {
    b := "";
    if s != "" && IsBlank(s[|s| - 1]) {
      var n := |s| - 1;
      b := TrimEndParts(s[..n]);
      b := b + [s[n]];
      assert s == s[..n] + [s[n]];
    }
  }

  /** Trimming takes blanks off both ends, and leaves none there. */
  lemma TrimParts(s: string) returns (a: string, b: string)
    ensures AllBlank(a) && AllBlank(b) && s == a + Trim(s) + b
    ensures Trim(s) != "" ==> !IsBlank(Trim(s)[0]) && !IsBlank(Trim(s)[|Trim(s)| - 1])
  {
    a := TrimStartParts(s);
    var t := TrimStart(s);
    b := TrimEndParts(t);
    assert a + t == a + Trim(s) + b;
    if Trim(s) != "" { assert t[0] == Trim(s)[0]; }
  }
}

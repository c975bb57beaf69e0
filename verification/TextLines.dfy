/** `str::lines`: what splitting a body into lines does, and that joining the lines undoes it. */
module TextLines {

  function LineLength(s: string): (n: nat)
    ensures n <= |s|
    ensures n < |s| ==> s[n] == '\n'
  {
    if s == "" || s[0] == '\n' then 0 else 1 + LineLength(s[1..])
  }

  function DropCarriageReturn(s: string): string {
    if s != "" && s[|s| - 1] == '\r' then s[..|s| - 1] else s
  }

  /** `str::lines`: a final newline ends the last line rather than starting another. */
  function Lines(s: string): seq<string>
    decreases |s|
  {
    if s == "" then []
    else
      var n := LineLength(s);
      if n == |s| then [s] else [DropCarriageReturn(s[..n])] + Lines(s[n + 1..])
  }

  // ----- what splitting is -----

  /** A line that this ends: by "\r\n", by "\n" unless it ends in a carriage return, or, the last, by nothing. */
  predicate EndedBy(line: string, end: string, last: bool) {
    && '\n' !in line
    && (|| end == "\r\n"
        || (end == "\n" && (line != "" ==> line[|line| - 1] != '\r'))
        || (end == "" && last && line != ""))
  }

  predicate AllEnded(ls: seq<string>, ends: seq<string>) {
    |ls| == |ends| && forall i | 0 <= i < |ls| :: EndedBy(ls[i], ends[i], i == |ls| - 1)
  }

  function Joined(ls: seq<string>, ends: seq<string>): string
    requires |ls| == |ends|
  {
    if ls == [] then "" else ls[0] + ends[0] + Joined(ls[1..], ends[1..])
  }

  lemma {:induction false} LineLengthIs(line: string, post: string)
    requires '\n' !in line && (post == "" || post[0] == '\n')
    ensures LineLength(line + post) == |line|
  {
    if line == "" {
      assert line + post == post;
    } else {
      assert (line + post)[1..] == line[1..] + post;
      assert '\n' !in line[1..];
      LineLengthIs(line[1..], post);
    }
  }

  /** A line and its end, before other lines. */
  lemma {:induction false} FirstLine(line: string, end: string, post: string)
    requires EndedBy(line, end, post == "")
    ensures Lines(line + end + post) == [line] + Lines(post)
  {
    var s := line + end + post;
    if end == "" {
      LineLengthIs(line, "");
      assert line + "" == line && s == line;
    } else {
      var body := if end == "\r\n" then line + "\r" else line;
      assert s == body + ("\n" + post);
      LineLengthIs(body, "\n" + post);
      assert s[..|body|] == body && s[|body| + 1..] == post;
      assert DropCarriageReturn(body) == line;
    }
  }

  lemma {:induction false} JoinedSome(ls: seq<string>, ends: seq<string>)
    requires AllEnded(ls, ends)
    ensures Joined(ls, ends) == "" ==> ls == []
  {
    if ls != [] { assert EndedBy(ls[0], ends[0], 0 == |ls| - 1); }
  }

  lemma AllEndedTail(ls: seq<string>, ends: seq<string>)
    requires AllEnded(ls, ends) && ls != []
    ensures AllEnded(ls[1..], ends[1..])
  {
    forall i | 0 <= i < |ls[1..]|
      ensures EndedBy(ls[1..][i], ends[1..][i], i == |ls[1..]| - 1)
    {
      assert EndedBy(ls[i + 1], ends[i + 1], i + 1 == |ls| - 1);
    }
  }

  /** Lines joined with their ends are split into those lines. */
  lemma {:induction false} LinesOfJoined(ls: seq<string>, ends: seq<string>)
    requires AllEnded(ls, ends)
    ensures Lines(Joined(ls, ends)) == ls
    decreases |ls|
  {
    if ls != [] {
      var post := Joined(ls[1..], ends[1..]);
      AllEndedTail(ls, ends);
      LinesOfJoined(ls[1..], ends[1..]);
      JoinedSome(ls[1..], ends[1..]);
      assert EndedBy(ls[0], ends[0], 0 == |ls| - 1);
      FirstLine(ls[0], ends[0], post);
      assert ls == [ls[0]] + ls[1..];
    }
  }

  lemma {:induction false} NoNewlineBefore(s: string)
    ensures '\n' !in s[..LineLength(s)]
  {
    if s != "" && s[0] != '\n' {
      NoNewlineBefore(s[1..]);
      var n := LineLength(s);
      assert s[..n] == [s[0]] + s[1..][..n - 1];
    }
  }

  /** Every text is its lines joined. */
  lemma {:induction false} JoinedLines(s: string) returns (ends: seq<string>)
    ensures AllEnded(Lines(s), ends) && Joined(Lines(s), ends) == s
    decreases |s|
  {
    if s == "" {
      ends := [];
    } else {
      var n := LineLength(s);
      NoNewlineBefore(s);
      if n == |s| {
        ends := [""];
        assert s[..n] == s;
        assert Joined([s], [""]) == s + "" + Joined([], []);
      } else {
        var rest := JoinedLines(s[n + 1..]);
        var line, end := FirstEnd(s, n);
        ends := [end] + rest;
        AllEndedCons(line, end, Lines(s[n + 1..]), rest);
        assert Joined(Lines(s), ends) == line + end + s[n + 1..];
      }
    }
  }

  lemma FirstEnd(s: string, n: nat) returns (line: string, end: string)
    requires n < |s| && s[n] == '\n' && '\n' !in s[..n]
    ensures line == DropCarriageReturn(s[..n]) && end != "" && EndedBy(line, end, false)
    ensures line + end + s[n + 1..] == s
  {
    var body := s[..n];
    line := DropCarriageReturn(body);
    end := if line == body then "\n" else "\r\n";
    assert body == if line == body then line else line + "\r";
    assert s == body + "\n" + s[n + 1..];
  }

  lemma {:induction false} AllEndedCons(line: string, end: string, ls: seq<string>, ends: seq<string>)
    requires EndedBy(line, end, false) && AllEnded(ls, ends)
    ensures AllEnded([line] + ls, [end] + ends)
    ensures Joined([line] + ls, [end] + ends) == line + end + Joined(ls, ends)
  {
    var a, b := [line] + ls, [end] + ends;
    assert a[1..] == ls && b[1..] == ends;
    forall i | 0 <= i < |a|
      ensures EndedBy(a[i], b[i], i == |a| - 1)
    {
      if i > 0 { assert EndedBy(ls[i - 1], ends[i - 1], i - 1 == |ls| - 1); }
    }
  }

  /** These are the lines of a text exactly when, each with one of the ends allowed, they make it up. */
  lemma LinesExactly(s: string, ls: seq<string>)
    ensures Lines(s) == ls <==> exists ends :: AllEnded(ls, ends) && Joined(ls, ends) == s
  {
    if Lines(s) == ls {
      var ends := JoinedLines(s);
      assert AllEnded(ls, ends) && Joined(ls, ends) == s;
    }
    if ends :| AllEnded(ls, ends) && Joined(ls, ends) == s {
      LinesOfJoined(ls, ends);
    }
  }
}

/** What a consumer reads back when it splits a served batch at newlines, torn writes included. */
module SpoolFraming {
  import opened Bytes
  import opened SpoolState
  import opened SpoolHistory

  predicate NoNewline(b: Bytes) {
    NEWLINE !in b
  }

  /** The consumer's view: the newline-separated lines of a text, after `carry` already read. */
  function Split(text: Bytes, carry: Bytes): seq<Bytes> {
    if text == [] then (if carry == [] then [] else [carry])
    else if text[0] == NEWLINE then [carry] + Split(text[1..], [])
    else Split(text[1..], carry + [text[0]])
  }

  function Lines(text: Bytes): seq<Bytes> {
    Split(text, [])
  }

  lemma {:induction false} SplitPrefix(x: Bytes, rest: Bytes, carry: Bytes)
    requires NoNewline(x)
    ensures Split(x + rest, carry) == Split(rest, carry + x)
    decreases |x|
  {
    if x == [] {
      assert x + rest == rest && carry + x == carry;
    } else {
      assert (x + rest)[0] == x[0] && (x + rest)[1..] == x[1..] + rest;
      assert carry + [x[0]] + x[1..] == carry + x;
      SplitPrefix(x[1..], rest, carry + [x[0]]);
    }
  }

  lemma {:induction false} SplitLine(line: Bytes, rest: Bytes, carry: Bytes)
    requires NoNewline(line)
    ensures Split(line + [NEWLINE] + rest, carry) == [carry + line] + Split(rest, [])
  {
    SplitPrefix(line, [NEWLINE] + rest, carry);
    assert line + [NEWLINE] + rest == line + ([NEWLINE] + rest);
    assert ([NEWLINE] + rest)[1..] == rest;
  }

  // ----- the served text -----

  predicate Clean(pieces: seq<Piece>) {
    forall i | 0 <= i < |pieces| ::
      match pieces[i] case Whole(line) => NoNewline(line) case Torn(left) => NoNewline(left)
  }

  /** The lines that were written in full. */
  function Complete(pieces: seq<Piece>): seq<Bytes> {
    if pieces == [] then []
    else (if pieces[0].Whole? then [pieces[0].line] else []) + Complete(pieces[1..])
  }

  function TornCount(pieces: seq<Piece>): nat {
    if pieces == [] then 0 else (if pieces[0].Torn? then 1 else 0) + TornCount(pieces[1..])
  }

  /** Each torn piece runs into the next complete line; leftovers at the end are lost. */
  function Glue(pieces: seq<Piece>, carry: Bytes): seq<Bytes> {
    if pieces == [] then []
    else match pieces[0]
      case Whole(line) => [carry + line] + Glue(pieces[1..], [])
      case Torn(left) => Glue(pieces[1..], carry + left)
  }

  lemma {:induction false} TrimTail(text: Bytes, tail: Bytes)
    requires NoNewline(tail)
    ensures Trim(text + tail) == Trim(text)
    decreases |tail|
  {
    if tail == [] {
      assert text + tail == text;
    } else {
      var n := |tail| - 1;
      assert (text + tail)[..|text + tail| - 1] == text + tail[..n];
      assert tail[n] in tail;
      TrimTail(text, tail[..n]);
    }
  }

  predicate EndsLine(text: Bytes) {
    text == [] || text[|text| - 1] == NEWLINE
  }

  /** A served text is empty or ends a line, and it is a prefix of the file. */
  lemma {:induction false} TrimEndsLine(text: Bytes)
    ensures EndsLine(Trim(text)) && Trim(text) <= text && NoNewline(text[|Trim(text)|..])
  {
    if text != [] && text[|text| - 1] != NEWLINE {
      var n := |text| - 1;
      TrimEndsLine(text[..n]);
      var k := |Trim(text)|;
      assert text[k..] == text[..n][k..] + [text[n]];
    }
  }

  lemma {:induction false} TrimKeepsLine(line: Bytes, rest: Bytes)
    ensures Trim(line + [NEWLINE] + rest) == line + [NEWLINE] + Trim(rest)
    decreases |rest|
  {
    var head := line + [NEWLINE];
    if rest == [] {
      assert head + rest == head;
    } else if rest[|rest| - 1] != NEWLINE {
      assert (head + rest)[..|head + rest| - 1] == head + rest[..|rest| - 1];
      TrimKeepsLine(line, rest[..|rest| - 1]);
    }
  }

  lemma CleanTail(pieces: seq<Piece>)
    requires Clean(pieces) && pieces != []
    ensures Clean(pieces[1..])
  {
  }

  lemma {:induction false} ServedFirstLine(carry: Bytes, line: Bytes, rest: Bytes)
    requires NoNewline(carry) && NoNewline(line)
    ensures Lines(Trim(carry + (line + [NEWLINE] + rest))) == [carry + line] + Lines(Trim(rest))
  {
    assert carry + (line + [NEWLINE] + rest) == (carry + line) + [NEWLINE] + rest;
    TrimKeepsLine(carry + line, rest);
    SplitLine(carry + line, Trim(rest), []);
    assert [] + (carry + line) == carry + line;
  }

  /** Splitting the trimmed text of newline-free pieces is gluing them. */
  lemma {:induction false} LinesOfServed(pieces: seq<Piece>, carry: Bytes)
    requires Clean(pieces) && NoNewline(carry)
    ensures Lines(Trim(carry + Raw(pieces))) == Glue(pieces, carry)
    decreases |pieces|
  {
    if pieces == [] {
      TrimTail([], carry);
      assert [] + carry == carry + Raw(pieces);
    } else {
      CleanTail(pieces);
      var rest := pieces[1..];
      match pieces[0]
      case Whole(line) =>
        LinesOfServed(rest, []);
        assert [] + Raw(rest) == Raw(rest);
        ServedFirstLine(carry, line, Raw(rest));
      case Torn(left) =>
        LinesOfServed(rest, carry + left);
        Associative(carry, left, Raw(rest));
    }
  }

  // ----- how far the served lines are from the appended ones -----

  ghost predicate EndsWith(a: Bytes, b: Bytes) {
    |b| <= |a| && a[|a| - |b|..] == b
  }

  function Differences(a: seq<Bytes>, b: seq<Bytes>): nat
    requires |a| == |b|
  {
    if a == [] then 0 else (if a[0] != b[0] then 1 else 0) + Differences(a[1..], b[1..])
  }

  lemma {:induction false} GlueFacts(pieces: seq<Piece>, carry: Bytes)
    ensures |Glue(pieces, carry)| == |Complete(pieces)|
    ensures forall i | 0 <= i < |Complete(pieces)| :: EndsWith(Glue(pieces, carry)[i], Complete(pieces)[i])
    ensures Differences(Glue(pieces, carry), Complete(pieces)) <= TornCount(pieces) + (if carry == [] then 0 else 1)
    decreases |pieces|
  {
    if pieces != [] {
      match pieces[0]
      case Whole(line) =>
        GlueFacts(pieces[1..], []);
        assert Glue(pieces, carry)[1..] == Glue(pieces[1..], []);
        assert Complete(pieces)[1..] == Complete(pieces[1..]);
        assert carry == [] ==> carry + line == line;
      case Torn(left) =>
        GlueFacts(pieces[1..], carry + left);
        assert Complete(pieces) == Complete(pieces[1..]);
    }
  }

  /**
   The consumer gets one line per completed line, each being that line behind possible torn
   leftovers, and at most as many lines differ as there were torn writes.
   */
  lemma {:induction false} ServedLines(pieces: seq<Piece>)
    requires Clean(pieces)
    ensures var got, sent := Lines(Trim(Raw(pieces))), Complete(pieces);
            && |got| == |sent|
            && (forall i | 0 <= i < |sent| :: EndsWith(got[i], sent[i]))
            && Differences(got, sent) <= TornCount(pieces)
  {
    LinesOfServed(pieces, []);
    assert [] + Raw(pieces) == Raw(pieces);
    GlueFacts(pieces, []);
  }

  lemma {:induction false} NoDifferences(a: seq<Bytes>, b: seq<Bytes>)
    requires |a| == |b| && Differences(a, b) == 0
    ensures a == b
  {
    if a != [] {
      NoDifferences(a[1..], b[1..]);
      assert a == [a[0]] + a[1..] && b == [b[0]] + b[1..];
    }
  }

  /** Without torn writes, splitting a served batch gives back exactly the lines appended to it. */
  lemma {:induction false} FramingExact(pieces: seq<Piece>)
    requires Clean(pieces) && TornCount(pieces) == 0
    ensures Lines(Trim(Raw(pieces))) == Complete(pieces)
  {
    ServedLines(pieces);
    NoDifferences(Lines(Trim(Raw(pieces))), Complete(pieces));
  }

  // ----- exactly when torn writes do damage -----

  /** What gluing leaves at the end: the bytes after the last newline. */
  function Rest(pieces: seq<Piece>, carry: Bytes): Bytes {
    if pieces == [] then carry
    else match pieces[0]
      case Whole(line) => Rest(pieces[1..], [])
      case Torn(left) => Rest(pieces[1..], carry + left)
  }

  lemma {:induction false} GlueAppend(a: seq<Piece>, b: seq<Piece>, carry: Bytes)
    ensures Glue(a + b, carry) == Glue(a, carry) + Glue(b, Rest(a, carry))
    decreases |a|
  {
    if a == [] {
      assert a + b == b;
    } else {
      assert (a + b)[0] == a[0] && (a + b)[1..] == a[1..] + b;
      GlueAppend(a[1..], b, if a[0].Whole? then [] else carry + a[0].left);
    }
  }

  lemma {:induction false} CompleteAppend(a: seq<Piece>, b: seq<Piece>)
    ensures Complete(a + b) == Complete(a) + Complete(b)
  {
    if a == [] {
      assert a + b == b;
    } else {
      assert (a + b)[0] == a[0] && (a + b)[1..] == a[1..] + b;
      CompleteAppend(a[1..], b);
    }
  }

  lemma EndsLineAfter(head: Bytes, tail: Bytes)
    ensures EndsLine(head + [NEWLINE] + tail) <==> EndsLine(tail)
  {
  }

  /** Nothing is left over exactly when the file is empty or ends in a newline. */
  lemma {:induction false} RestIsTail(pieces: seq<Piece>, carry: Bytes)
    requires Clean(pieces) && NoNewline(carry)
    ensures Rest(pieces, carry) == [] <==> EndsLine(carry + Raw(pieces))
    decreases |pieces|
  {
    if pieces == [] {
      assert carry + Raw(pieces) == carry;
      assert carry != [] ==> carry[|carry| - 1] in carry;
    } else {
      CleanTail(pieces);
      var rest := pieces[1..];
      match pieces[0]
      case Whole(line) =>
        RestIsTail(rest, []);
        assert [] + Raw(rest) == Raw(rest);
        assert carry + Raw(pieces) == (carry + line) + [NEWLINE] + Raw(rest);
        EndsLineAfter(carry + line, Raw(rest));
      case Torn(left) =>
        RestIsTail(rest, carry + left);
        Associative(carry, left, Raw(rest));
    }
  }

  /** No torn bytes have a complete line anywhere after them. */
  ghost predicate Harmless(pieces: seq<Piece>) {
    forall i, j | 0 <= i < j < |pieces| && pieces[i].Torn? && pieces[i].left != [] :: !pieces[j].Whole?
  }

  lemma {:induction false} NoneComplete(pieces: seq<Piece>)
    ensures Complete(pieces) == [] <==> forall j | 0 <= j < |pieces| :: !pieces[j].Whole?
  {
    if pieces != [] {
      NoneComplete(pieces[1..]);
      assert forall j | 1 <= j < |pieces| :: pieces[j] == pieces[1..][j - 1];
    }
  }

  lemma HarmlessFirst(pieces: seq<Piece>)
    requires pieces != []
    ensures Harmless(pieces) <==>
            Harmless(pieces[1..]) && (pieces[0].Torn? && pieces[0].left != [] ==> Complete(pieces[1..]) == [])
  {
    var rest := pieces[1..];
    NoneComplete(rest);
    assert forall j | 1 <= j < |pieces| :: pieces[j] == rest[j - 1];
    assert forall j | 0 <= j < |rest| :: rest[j] == pieces[j + 1];
  }

  lemma {:induction false} GlueExactlyWhen(pieces: seq<Piece>, carry: Bytes)
    ensures Glue(pieces, carry) == Complete(pieces) <==> Harmless(pieces) && (carry == [] || Complete(pieces) == [])
    decreases |pieces|
  {
    if pieces != [] {
      var rest := pieces[1..];
      HarmlessFirst(pieces);
      match pieces[0]
      case Whole(line) =>
        GlueExactlyWhen(rest, []);
        assert Glue(pieces, carry) == [carry + line] + Glue(rest, []) && Complete(pieces) == [line] + Complete(rest);
        assert Glue(pieces, carry)[1..] == Glue(rest, []) && Complete(pieces)[1..] == Complete(rest);
        assert carry + line == line <==> carry == [];
      case Torn(left) =>
        GlueExactlyWhen(rest, carry + left);
        assert Complete(pieces) == Complete(rest);
    }
  }

  /**
   The exact condition: a file is served as the lines completed in it, and nothing else, if and
   only if no torn bytes are followed by a completed line.
   */
  lemma {:induction false} FramedExactlyWhen(pieces: seq<Piece>)
    requires Clean(pieces)
    ensures Lines(Trim(Raw(pieces))) == Complete(pieces) <==> Harmless(pieces)
  {
    LinesOfServed(pieces, []);
    assert [] + Raw(pieces) == Raw(pieces);
    GlueExactlyWhen(pieces, []);
  }

  /**
   Line by line, whatever happened before and after: a completed line is served verbatim, in its
   place, if and only if the file was empty or ended in a newline when the line was written, that
   is, unless torn bytes come directly before it.
   */
  lemma {:induction false} CompletedLinesKept(before: seq<Piece>, line: Bytes, after: seq<Piece>)
    requires Clean(before) && NoNewline(line) && Clean(after)
    ensures var got := Lines(Trim(Raw(before + [Whole(line)] + after)));
            |Complete(before)| < |got| && (got[|Complete(before)|] == line <==> EndsLine(Raw(before)))
    ensures EndsLine(Raw(before)) <==> !EndsTorn(before)
  {
    var tail := [Whole(line)] + after;
    assert before + [Whole(line)] + after == before + tail;
    LinesOfServed(before + tail, []);
    assert [] + Raw(before + tail) == Raw(before + tail) && [] + Raw(before) == Raw(before);
    GlueAppend(before, tail, []);
    GlueFacts(before, []);
    RestIsTail(before, []);
    assert Glue(tail, Rest(before, []))[0] == Rest(before, []) + line;
    TornEnd(before);
  }

  /** The last bytes written are those of a torn piece. */
  predicate EndsTorn(pieces: seq<Piece>) {
    pieces != [] &&
    var last := pieces[|pieces| - 1];
    last.Torn? && (last.left != [] || EndsTorn(pieces[..|pieces| - 1]))
  }

  lemma {:induction false} TornEnd(pieces: seq<Piece>)
    requires Clean(pieces)
    ensures EndsLine(Raw(pieces)) <==> !EndsTorn(pieces)
  {
    if pieces != [] {
      var n := |pieces| - 1;
      TornEnd(pieces[..n]);
      RawAppend(pieces[..n], [pieces[n]]);
      assert pieces == pieces[..n] + [pieces[n]];
      LastPieceEnds(Raw(pieces[..n]), pieces[n]);
    }
  }

  /** Whether a file ends a line after one more piece. */
  lemma LastPieceEnds(before: Bytes, p: Piece)
    requires Clean([p])
    ensures EndsLine(before + Raw([p])) <==>
            match p case Whole(_) => true case Torn(left) => left == [] && EndsLine(before)
  {
    assert Raw([p]) == PieceBytes(p) + Raw([]) == PieceBytes(p);
    assert Clean([p]) ==> [p][0] == p;
    if p.Torn? {
      if p.left == [] { assert before + p.left == before; } else { assert p.left[|p.left| - 1] in p.left; }
    }
  }

  // ----- whole runs -----

  function Crashes(ops: seq<Op>): nat {
    if ops == [] then 0
    else Crashes(ops[..|ops| - 1]) + (if ops[|ops| - 1].Crash? then 1 else 0)
  }

  lemma {:induction false} TornAppend(a: seq<Piece>, b: seq<Piece>)
    ensures TornCount(a + b) == TornCount(a) + TornCount(b)
  {
    if a == [] {
      assert a + b == b;
    } else {
      assert (a + b)[1..] == a[1..] + b;
      TornAppend(a[1..], b);
    }
  }

  lemma {:induction false} TornWholes(lines: seq<Bytes>)
    ensures TornCount(Wholes(lines)) == 0
  {
    if lines != [] {
      TornWholes(lines[1..]);
      TornAppend(if lines[0] == [] then [] else [Whole(lines[0])], Wholes(lines[1..]));
    }
  }

  lemma {:induction false} TornCut(lines: seq<Bytes>, k: nat)
    requires k <= |Payload(lines)|
    ensures TornCount(Cut(lines, k)) <= 1
  {
    if lines == [] || k == 0 {
    } else if lines[0] == [] {
      TornCut(lines[1..], k);
    } else if k <= |lines[0]| {
      assert Cut(lines, k)[1..] == [];
    } else {
      TornCut(lines[1..], k - |lines[0]| - 1);
      TornAppend([Whole(lines[0])], Cut(lines[1..], k - |lines[0]| - 1));
    }
  }

  lemma {:induction false} TornByCrashes(ops: seq<Op>)
    ensures TornCount(LoggedBy(ops)) <= Crashes(ops)
  {
    if ops != [] {
      var before, op := ops[..|ops| - 1], ops[|ops| - 1];
      TornByCrashes(before);
      TornAppend(LoggedBy(before), Logged(op));
      match op
      case Append(lines) => TornWholes(lines);
      case Crash(lines, Writing(bytes)) => TornCut(lines, Clip(lines, bytes));
      case Crash(lines, Capping(_)) => TornWholes(lines);
      case _ =>
    }
  }

  /** Torn pieces over all parts of a history. */
  function TornIn(parts: seq<Part>): nat {
    if parts == [] then 0 else TornCount(parts[0].pieces) + TornIn(parts[1..])
  }

  lemma {:induction false} TornFlatten(parts: seq<Part>)
    ensures TornCount(Flatten(parts)) == TornIn(parts)
  {
    if parts != [] {
      TornFlatten(parts[1..]);
      TornAppend(parts[0].pieces, Flatten(parts[1..]));
    }
  }

  /** Served lines, over all parts and the open file, that are not verbatim appended lines. */
  function DamagedIn(parts: seq<Part>): nat {
    if parts == [] then 0 else Damage(parts[0].pieces) + DamagedIn(parts[1..])
  }

  function Damage(pieces: seq<Piece>): nat {
    var got, sent := Lines(Trim(Raw(pieces))), Complete(pieces);
    if |got| == |sent| then Differences(got, sent) else |got| + |sent|
  }

  lemma {:induction false} DamageBound(parts: seq<Part>)
    requires forall i | 0 <= i < |parts| :: Clean(parts[i].pieces)
    ensures DamagedIn(parts) <= TornIn(parts)
  {
    if parts != [] {
      ServedLines(parts[0].pieces);
      DamageBound(parts[1..]);
    }
  }

  predicate CleanLines(lines: seq<Bytes>) {
    forall i | 0 <= i < |lines| :: NoNewline(lines[i])
  }

  /** No operation of the run is given a line with a newline inside. */
  predicate CleanRun(ops: seq<Op>) {
    forall i | 0 <= i < |ops| ::
      match ops[i]
      case Append(lines) => CleanLines(lines)
      case Crash(lines, _) => CleanLines(lines)
      case _ => true
  }

  lemma {:induction false} CleanWholes(lines: seq<Bytes>)
    requires CleanLines(lines)
    ensures Clean(Wholes(lines))
  {
    if lines != [] { CleanWholes(lines[1..]); }
  }

  lemma {:induction false} CleanCut(lines: seq<Bytes>, k: nat)
    requires CleanLines(lines) && k <= |Payload(lines)|
    ensures Clean(Cut(lines, k))
  {
    if lines == [] || k == 0 {
    } else if lines[0] == [] {
      CleanCut(lines[1..], k);
    } else if k > |lines[0]| {
      CleanCut(lines[1..], k - |lines[0]| - 1);
    }
  }

  lemma {:induction false} CleanLog(ops: seq<Op>)
    requires CleanRun(ops)
    ensures Clean(LoggedBy(ops))
  {
    if ops != [] {
      var before, op := ops[..|ops| - 1], ops[|ops| - 1];
      CleanLog(before);
      match op
      case Append(lines) => CleanWholes(lines);
      case Crash(lines, Writing(bytes)) => CleanCut(lines, Clip(lines, bytes));
      case Crash(lines, Capping(_)) => CleanWholes(lines);
      case _ =>
    }
  }

  lemma {:induction false} CleanParts(parts: seq<Part>, rest: seq<Piece>)
    requires Clean(Flatten(parts) + rest)
    ensures Clean(rest) && forall i | 0 <= i < |parts| :: Clean(parts[i].pieces)
  {
    if parts == [] {
      assert Flatten(parts) + rest == rest;
    } else {
      var all := Flatten(parts) + rest;
      var n := |parts[0].pieces|;
      assert all[..n] == parts[0].pieces && all[n..] == Flatten(parts[1..]) + rest;
      CleanParts(parts[1..], rest);
    }
  }

  /**
   For every run with k crashes, each at any byte of an append: at most k lines of the whole
   stream, over every part ever closed and the open file, differ from the lines appended.
   */
  lemma {:induction false} CrashBound(cfg: Config, ops: seq<Op>)
    requires CleanRun(ops)
    ensures DamagedIn(Trace(cfg, ops).parts) + Damage(Trace(cfg, ops).open) <= Crashes(ops)
  {
    var h := Trace(cfg, ops);
    Conservation(cfg, ops);
    CleanLog(ops);
    CleanParts(h.parts, h.open);
    TornByCrashes(ops);
    TornAppend(Flatten(h.parts), h.open);
    TornFlatten(h.parts);
    DamageBound(h.parts);
    ServedLines(h.open);
  }
}

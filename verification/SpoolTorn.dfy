/** What torn writes cost over whole runs: exactly which appends are damaged, and when none is. */
module SpoolTorn {
  import opened Bytes
  import opened SpoolFraming
  import opened SpoolHistory
  import opened SpoolState
  import SpoolServed

  /** Every operation that completes a line finds the open file empty or ending in a newline. */
  ghost predicate Guarded(cfg: Config, ops: seq<Op>) {
    ops == [] ||
    var before, op := ops[..|ops| - 1], ops[|ops| - 1];
    && Guarded(cfg, before)
    && (Complete(Logged(op)) != [] ==> EndsLine(Run(cfg, before).current))
  }

  // ----- one operation -----

  /** A file's pieces come back as the lines completed in it. */
  predicate Intact(pieces: seq<Piece>) {
    Glue(pieces, []) == Complete(pieces)
  }

  ghost predicate AllIntact(h: History) {
    Intact(h.open) && forall i | 0 <= i < |h.parts| :: Intact(h.parts[i].pieces)
  }

  lemma ConcatEqual<T>(a: seq<T>, b: seq<T>, x: seq<T>, y: seq<T>)
    requires |a| == |x|
    ensures a + b == x + y <==> a == x && b == y
  {
    if a + b == x + y {
      assert a == (a + b)[..|a|] && x == (x + y)[..|x|];
      assert b == (a + b)[|a|..] && y == (x + y)[|x|..];
    }
  }

  lemma {:induction false} IntactAppend(a: seq<Piece>, b: seq<Piece>)
    requires Clean(a) && Harmless(b)
    ensures Intact(a + b) <==> Intact(a) && (Complete(b) != [] ==> EndsLine(Raw(a)))
  {
    GlueAppend(a, b, []);
    CompleteAppend(a, b);
    GlueFacts(a, []);
    ConcatEqual(Glue(a, []), Glue(b, Rest(a, [])), Complete(a), Complete(b));
    GlueExactlyWhen(b, Rest(a, []));
    RestIsTail(a, []);
    assert [] + Raw(a) == Raw(a);
  }

  lemma {:induction false} WholesHarmless(lines: seq<Bytes>)
    ensures Harmless(Wholes(lines))
  {
    if lines != [] {
      WholesHarmless(lines[1..]);
      if lines[0] != [] {
        assert Wholes(lines)[1..] == Wholes(lines[1..]);
        HarmlessFirst(Wholes(lines));
      } else {
        assert Wholes(lines) == Wholes(lines[1..]);
      }
    }
  }

  lemma {:induction false} CutHarmless(lines: seq<Bytes>, k: nat)
    requires k <= |Payload(lines)|
    ensures Harmless(Cut(lines, k))
  {
    if lines == [] || k == 0 {
    } else if lines[0] == [] {
      CutHarmless(lines[1..], k);
    } else if k > |lines[0]| {
      CutHarmless(lines[1..], k - |lines[0]| - 1);
      assert Cut(lines, k)[1..] == Cut(lines[1..], k - |lines[0]| - 1);
      HarmlessFirst(Cut(lines, k));
    }
  }

  lemma LoggedHarmless(op: Op)
    ensures Harmless(Logged(op))
  {
    match op
    case Append(lines) => WholesHarmless(lines);
    case Crash(lines, Writing(bytes)) => CutHarmless(lines, Clip(lines, bytes));
    case Crash(lines, Capping(_)) => WholesHarmless(lines);
    case _ =>
  }

  lemma CloseIntact(s: State, h: History)
    ensures AllIntact(Close(s, h)) <==> AllIntact(h)
  {
    if s.current != [] {
      var r := Close(s, h).parts;
      assert r[|h.parts|].pieces == h.open && forall i | 0 <= i < |h.parts| :: r[i] == h.parts[i];
    }
  }

  lemma SameIntact(h: History, g: History)
    requires h.open == g.open && |h.parts| == |g.parts|
    requires forall i | 0 <= i < |h.parts| :: h.parts[i].pieces == g.parts[i].pieces
    ensures AllIntact(h) <==> AllIntact(g)
  {
  }

  lemma {:induction false} RecordIntact(h: History, pieces: seq<Piece>)
    requires Clean(h.open) && Harmless(pieces)
    ensures AllIntact(Record(h, pieces)) <==> AllIntact(h) && (Complete(pieces) != [] ==> EndsLine(Raw(h.open)))
  {
    IntactAppend(h.open, pieces);
  }

  lemma {:induction false} AbsorbIntact(cfg: Config, s: State, h: History, lines: seq<Bytes>, limit: nat)
    ensures AllIntact(Absorb(cfg, s, h, lines, limit)) <==> AllIntact(Record(h, Wholes(lines)))
  {
    var s1, h1 := Written(s, lines), Record(h, Wholes(lines));
    var inv := (t: State, g: History) => AllIntact(g) <==> AllIntact(h1);
    forall t, g | inv(t, g) && t.closed.Keys != {}
      ensures inv(DropOldest(t), Mark(g, Least(t.closed.Keys), Dropped))
    {
      SameIntact(g, Mark(g, Least(t.closed.Keys), Dropped));
    }
    CloseIntact(s1, h1);
    ShedKeeps(inv, cfg, RotateIfFull(cfg, s1), CloseIfFull(cfg, s1, h1), limit);
  }

  lemma FollowIntact(cfg: Config, s: State, h: History, op: Op)
    requires s.current == Raw(h.open) && Clean(h.open)
    ensures AllIntact(Follow(cfg, s, h, op)) <==>
            AllIntact(h) && (Complete(Logged(op)) != [] ==> EndsLine(s.current))
  {
    LoggedHarmless(op);
    RecordIntact(h, Logged(op));
    match op
    case Append(lines) =>
      if lines != [] { AbsorbIntact(cfg, s, h, lines, |RotateIfFull(cfg, Written(s, lines)).closed.Keys|); }
    case Next =>
      CloseIntact(s, h);
      var g := if s.closed.Keys == {} then Close(s, h) else h;
      SameIntact(g, Follow(cfg, s, h, Next));
    case Ack(id) => SameIntact(h, Follow(cfg, s, h, op));
    case Reopen =>
    case Crash(lines, Writing(_)) =>
    case Crash(lines, Capping(drops)) => if lines != [] { AbsorbIntact(cfg, s, h, lines, drops); }
  }

  // ----- whole runs -----

  lemma {:induction false} CleanTrace(cfg: Config, ops: seq<Op>)
    requires CleanRun(ops)
    ensures Clean(Trace(cfg, ops).open)
    ensures forall i | 0 <= i < |Trace(cfg, ops).parts| :: Clean(Trace(cfg, ops).parts[i].pieces)
  {
    Conservation(cfg, ops);
    CleanLog(ops);
    CleanParts(Trace(cfg, ops).parts, Trace(cfg, ops).open);
  }

  lemma {:induction false} IntactExactlyWhen(cfg: Config, ops: seq<Op>)
    requires CleanRun(ops)
    ensures AllIntact(Trace(cfg, ops)) <==> Guarded(cfg, ops)
  {
    if ops != [] {
      var before := ops[..|ops| - 1];
      IntactExactlyWhen(cfg, before);
      Conservation(cfg, before);
      CleanTrace(cfg, before);
      FollowIntact(cfg, Run(cfg, before), Trace(cfg, before), ops[|ops| - 1]);
    }
  }

  lemma {:induction false} NoDifference(a: seq<Bytes>)
    ensures Differences(a, a) == 0
  {
    if a != [] { NoDifference(a[1..]); }
  }

  lemma {:induction false} UndamagedIsIntact(pieces: seq<Piece>)
    requires Clean(pieces)
    ensures Damage(pieces) == 0 <==> Intact(pieces)
    ensures Intact(pieces) <==> Lines(Trim(Raw(pieces))) == Complete(pieces)
  {
    var got, sent := Lines(Trim(Raw(pieces))), Complete(pieces);
    LinesOfServed(pieces, []);
    assert [] + Raw(pieces) == Raw(pieces);
    GlueFacts(pieces, []);
    NoDifference(sent);
    if Damage(pieces) == 0 { NoDifferences(got, sent); }
  }

  lemma {:induction false} UndamagedParts(parts: seq<Part>)
    requires forall i | 0 <= i < |parts| :: Clean(parts[i].pieces)
    ensures DamagedIn(parts) == 0 <==> forall i | 0 <= i < |parts| :: Intact(parts[i].pieces)
  {
    if parts != [] {
      UndamagedIsIntact(parts[0].pieces);
      UndamagedParts(parts[1..]);
      assert forall i | 1 <= i < |parts| :: parts[i] == parts[1..][i - 1];
    }
  }

  /**
   The exact condition under which a torn write costs nothing, over every run: the whole stream is
   read back as the lines completed in it if and only if every operation that completes a line
   finds the open file empty or ending in a newline.
   */
  lemma {:induction false} UndamagedExactlyWhen(cfg: Config, ops: seq<Op>)
    requires CleanRun(ops)
    ensures DamagedIn(Trace(cfg, ops).parts) + Damage(Trace(cfg, ops).open) == 0 <==> Guarded(cfg, ops)
  {
    IntactExactlyWhen(cfg, ops);
    CleanTrace(cfg, ops);
    UndamagedParts(Trace(cfg, ops).parts);
    UndamagedIsIntact(Trace(cfg, ops).open);
  }

  /** In particular nothing is damaged in a run without crashes. */
  lemma {:induction false} CrashFreeIsGuarded(cfg: Config, ops: seq<Op>)
    requires CleanRun(ops) && Crashes(ops) == 0
    ensures Guarded(cfg, ops)
  {
    CrashBound(cfg, ops);
    UndamagedExactlyWhen(cfg, ops);
  }

  // ----- one append, whatever follows it -----

  /** The lines an append writes. */
  function NonEmpty(lines: seq<Bytes>): seq<Bytes> {
    if lines == [] then [] else (if lines[0] == [] then [] else [lines[0]]) + NonEmpty(lines[1..])
  }

  lemma {:induction false} CompleteWholes(lines: seq<Bytes>)
    ensures Complete(Wholes(lines)) == NonEmpty(lines)
  {
    if lines != [] {
      CompleteWholes(lines[1..]);
      CompleteAppend(if lines[0] == [] then [] else [Whole(lines[0])], Wholes(lines[1..]));
    }
  }

  lemma {:induction false} LinesOfThree(a: seq<Piece>, b: seq<Piece>, c: seq<Piece>)
    requires Clean(a + b + c) && Clean(a) && Harmless(b) && Complete(b) != []
    ensures var got, n, m := Lines(Trim(Raw(a + b + c))), |Complete(a)|, |Complete(b)|;
            n + m <= |got| && (got[n..n + m] == Complete(b) <==> EndsLine(Raw(a)))
  {
    LinesOfServed(a + b + c, []);
    assert [] + Raw(a + b + c) == Raw(a + b + c) && [] + Raw(a) == Raw(a);
    GlueAppend(a + b, c, []);
    GlueAppend(a, b, []);
    GlueFacts(a, []);
    GlueFacts(b, Rest(a, []));
    var x, y, z := Glue(a, []), Glue(b, Rest(a, [])), Glue(c, Rest(a + b, []));
    assert (x + y + z)[|x|..|x| + |y|] == y;
    GlueExactlyWhen(b, Rest(a, []));
    RestIsTail(a, []);
  }

  /** These are the lines that stand in the file from line `n` on. */
  predicate StandsAt(sent: seq<Bytes>, n: nat, file: seq<Piece>) {
    var got := Lines(Trim(Raw(file)));
    n + |sent| <= |got| && got[n..n + |sent|] == sent
  }

  lemma {:induction false} KeptInFile(open: seq<Piece>, lines: seq<Bytes>, later: seq<Piece>)
    requires Clean(open) && Clean(open + Wholes(lines) + later) && NonEmpty(lines) != []
    ensures StandsAt(NonEmpty(lines), |Complete(open)|, open + Wholes(lines) + later) <==> EndsLine(Raw(open))
  {
    CompleteWholes(lines);
    WholesHarmless(lines);
    LinesOfThree(open, Wholes(lines), later);
  }

  /** The file an append went to: what it found, what it wrote, and whatever came later. */
  lemma AppendInFile(cfg: Config, ops: seq<Op>, lines: seq<Bytes>, more: seq<Op>) returns (later: seq<Piece>)
    ensures var h, g := Trace(cfg, ops), Trace(cfg, ops + [Append(lines)] + more);
            |h.parts| <= |g.parts| && SpoolServed.FileAt(g, |h.parts|) == h.open + Wholes(lines) + later
  {
    var h := Record(Trace(cfg, ops), Wholes(lines));
    SpoolServed.OneMore(cfg, ops, Append(lines));
    SpoolServed.TraceExtends(cfg, ops + [Append(lines)], more);
    SpoolServed.ExtendsTwice(h, Trace(cfg, ops + [Append(lines)]), Trace(cfg, ops + [Append(lines)] + more));
    later := SpoolServed.LaterFile(Trace(cfg, ops), Wholes(lines), Trace(cfg, ops + [Append(lines)] + more));
  }

  lemma {:induction false} CleanFile(cfg: Config, ops: seq<Op>, k: nat)
    requires CleanRun(ops) && k <= |Trace(cfg, ops).parts|
    ensures Clean(SpoolServed.FileAt(Trace(cfg, ops), k))
  {
    CleanTrace(cfg, ops);
  }

  /**
   A completed append of at least one line is read back verbatim, in its place, whatever the run
   does before and after, if and only if it found the open file empty or ending in a newline.
   */
  lemma {:induction false} AppendKeptExactlyWhen(cfg: Config, ops: seq<Op>, lines: seq<Bytes>, more: seq<Op>)
    requires CleanRun(ops) && CleanRun(ops + [Append(lines)] + more) && NonEmpty(lines) != []
    ensures var h, g := Trace(cfg, ops), Trace(cfg, ops + [Append(lines)] + more);
            |h.parts| <= |g.parts| &&
            (StandsAt(NonEmpty(lines), |Complete(h.open)|, SpoolServed.FileAt(g, |h.parts|)) <==>
             EndsLine(Run(cfg, ops).current))
  {
    var later := AppendInFile(cfg, ops, lines, more);
    CleanFile(cfg, ops + [Append(lines)] + more, |Trace(cfg, ops).parts|);
    CleanFile(cfg, ops, |Trace(cfg, ops).parts|);
    Conservation(cfg, ops);
    KeptInFile(Trace(cfg, ops).open, lines, later);
  }

  // ----- what the consumer of an undamaged run sees -----

  lemma {:induction false} FlattenAppend(a: seq<Part>, b: seq<Part>)
    ensures Flatten(a + b) == Flatten(a) + Flatten(b)
  {
    if a == [] {
      assert a + b == b;
    } else {
      assert (a + b)[0] == a[0] && (a + b)[1..] == a[1..] + b;
      FlattenAppend(a[1..], b);
    }
  }

  lemma {:induction false} FlattenSplit(parts: seq<Part>, i: nat, rest: seq<Piece>)
    requires i <= |parts|
    ensures Flatten(parts) + rest == Flatten(parts[..i]) + (Flatten(parts[i..]) + rest)
  {
    assert parts == parts[..i] + parts[i..];
    FlattenAppend(parts[..i], parts[i..]);
  }

  /** How many lines were completed in the parts before this one. */
  function LinesBefore(parts: seq<Part>, i: nat): nat
    requires i <= |parts|
  {
    |Complete(Flatten(parts[..i]))|
  }

  lemma {:induction false} PartInLog(parts: seq<Part>, i: nat, rest: seq<Piece>)
    requires i < |parts|
    ensures var all := Complete(Flatten(parts) + rest);
            LinesBefore(parts, i) <= LinesBefore(parts, i + 1) <= |all|
            && all[LinesBefore(parts, i)..LinesBefore(parts, i + 1)] == Complete(parts[i].pieces)
  {
    var a, p, b := Flatten(parts[..i]), parts[i].pieces, Flatten(parts[i + 1..]) + rest;
    FlattenSnoc(parts[..i], parts[i]);
    assert parts[..i + 1] == parts[..i] + [parts[i]];
    FlattenSplit(parts, i + 1, rest);
    CompleteAppend(a + p, b);
    CompleteAppend(a, p);
  }

  /** A text splits into exactly the lines completed in one part of the log. */
  ghost predicate Verbatim(text: Bytes, parts: seq<Part>, i: nat, log: seq<Bytes>) {
    && i < |parts|
    && LinesBefore(parts, i) <= LinesBefore(parts, i + 1) <= |log|
    && Lines(text) == log[LinesBefore(parts, i)..LinesBefore(parts, i + 1)]
  }

  lemma VerbatimSlice(text: Bytes, parts: seq<Part>, i: nat, log: seq<Bytes>) returns (a: nat, b: nat)
    requires Verbatim(text, parts, i, log)
    ensures a <= b <= |log| && Lines(text) == log[a..b]
  {
    a, b := LinesBefore(parts, i), LinesBefore(parts, i + 1);
  }

  lemma PartVerbatim(h: History, i: nat)
    requires AllIntact(h) && i < |h.parts| && Clean(h.parts[i].pieces)
    ensures Verbatim(Trim(Raw(h.parts[i].pieces)), h.parts, i, Complete(Log(h)))
  {
    UndamagedIsIntact(h.parts[i].pieces);
    PartInLog(h.parts, i, h.open);
  }

  /**
   In a guarded run, crashes included, each batch splits into exactly the lines completed in its
   part: a contiguous run of all the lines completed, starting where the part before it ends.
   */
  lemma {:induction false} ServedVerbatim(cfg: Config, ops: seq<Op>, j: nat)
    requires CleanRun(ops) && Guarded(cfg, ops) && j < |Batches(cfg, ops)|
    ensures var parts, at := Trace(cfg, ops).parts, SpoolServed.Positions(cfg, ops);
            j < |at| && Verbatim(Batches(cfg, ops)[j].text, parts, at[j], Complete(LoggedBy(ops)))
  {
    SpoolServed.ServedInLogOrder(cfg, ops, j);
    IntactExactlyWhen(cfg, ops);
    CleanTrace(cfg, ops);
    Conservation(cfg, ops);
    PartVerbatim(Trace(cfg, ops), SpoolServed.Positions(cfg, ops)[j]);
  }

  /** Where the batch's lines are among all the lines completed. */
  lemma ServedSlice(cfg: Config, ops: seq<Op>, j: nat) returns (a: nat, b: nat)
    requires CleanRun(ops) && Guarded(cfg, ops) && j < |Batches(cfg, ops)|
    ensures a <= b <= |Complete(LoggedBy(ops))| && Lines(Batches(cfg, ops)[j].text) == Complete(LoggedBy(ops))[a..b]
  {
    ServedVerbatim(cfg, ops, j);
    a, b := VerbatimSlice(Batches(cfg, ops)[j].text, Trace(cfg, ops).parts, SpoolServed.Positions(cfg, ops)[j],
                          Complete(LoggedBy(ops)));
  }

  // ----- a torn line that is not ignored -----

  /** The lines an operation is given. */
  function LinesOf(op: Op): seq<Bytes> {
    match op
    case Append(lines) => lines
    case Crash(lines, _) => lines
    case _ => []
  }

  lemma {:induction false} ServeOpen(cfg: Config, ops: seq<Op>)
    requires Run(cfg, ops).closed == map[] && Run(cfg, ops).current != [] && Run(cfg, ops).nextSeq < 10
    requires Batches(cfg, ops) == []
    ensures |Batches(cfg, ops + [Next])| == 1 && Batches(cfg, ops + [Next])[0].text == Trim(Run(cfg, ops).current)
  {
    assert (ops + [Next])[..|ops|] == ops;
    var t := Rotate(Run(cfg, ops));
    LeastIs(t.closed.Keys, Run(cfg, ops).nextSeq);
  }

  /** After one byte of a line was written before a crash: one file, nothing closed. */
  lemma {:induction false} TornStart(cfg: Config)
    requires cfg == Config(100, 1000)
    ensures var ops := [Crash([[0x61, 0x62]], Writing(1))];
            Run(cfg, ops) == State(map[], [0x61], 1, 0) && Batches(cfg, ops) == []
  {
    var ops := [Crash([[0x61, 0x62]], Writing(1))];
    assert ops[..0] == [];
    assert Payload([[0x61, 0x62]]) == [0x61, 0x62, NEWLINE] + Payload([]);
    assert Payload([[0x61, 0x62]])[..1] == [0x61];
  }

  lemma {:induction false} TornThenAppend(cfg: Config, ops: seq<Op>)
    requires cfg == Config(100, 1000) && Run(cfg, ops) == State(map[], [0x61], 1, 0) && Batches(cfg, ops) == []
    ensures var after := ops + [Append([[0x63]])];
            Run(cfg, after) == State(map[], [0x61, 0x63, NEWLINE], 1, 0) && Batches(cfg, after) == []
  {
    assert (ops + [Append([[0x63]])])[..|ops|] == ops;
    assert Payload([[0x63]]) == [0x63, NEWLINE] + Payload([]);
  }

  lemma {:induction false} TornRun(cfg: Config, ops: seq<Op>)
    requires cfg == Config(100, 1000) && ops == [Crash([[0x61, 0x62]], Writing(1)), Append([[0x63]]), Next]
    ensures |Batches(cfg, ops)| == 1 && Batches(cfg, ops)[0].text == [0x61, 0x63, NEWLINE]
  {
    TornStart(cfg);
    TornThenAppend(cfg, ops[..1]);
    assert ops[..2] == ops[..1] + [Append([[0x63]])];
    ServeOpen(cfg, ops[..2]);
    assert ops == ops[..2] + [Next];
  }

  lemma OneCrash(op: Op, next: Op, last: Op)
    requires op.Crash? && !next.Crash? && !last.Crash?
    ensures Crashes([op, next, last]) == 1
  {
    var ops := [op, next, last];
    assert [op][..0] == [] && Crashes([op]) == 1;
    assert [op, next][..1] == [op] && Crashes([op, next]) == 1;
    assert ops[..2] == [op, next];
  }

  lemma GluedIsNew(x: byte, y: byte, z: byte, ops: seq<Op>)
    requires x != NEWLINE && y != NEWLINE && z != NEWLINE && y != z
    requires ops == [Crash([[x, y]], Writing(1)), Append([[z]]), Next]
    ensures CleanRun(ops) && forall i | 0 <= i < |ops| :: [x, z] !in LinesOf(ops[i])
  {
    assert NoNewline([x, y]) && NoNewline([z]);
    assert [x, z][1] != [x, y][1] && |[x, z]| != |[z]|;
  }

  lemma GluedLine(x: byte, z: byte)
    requires x != NEWLINE && z != NEWLINE
    ensures Lines([x, z, NEWLINE]) == [[x, z]]
  {
    assert [x, z, NEWLINE] == [x, z] + [NEWLINE] + [];
    SplitLine([x, z], [], []);
    assert [] + [x, z] == [x, z];
  }

  /**
   A torn trailing line is not always ignored: a crash within a line, one append after the reopen,
   and the only batch is a line that nobody appended.
   */
  lemma TornLineServed() returns (cfg: Config, ops: seq<Op>, line: Bytes)
    ensures CleanRun(ops) && Crashes(ops) == 1 && forall i | 0 <= i < |ops| :: line !in LinesOf(ops[i])
    ensures |Batches(cfg, ops)| == 1 && Lines(Batches(cfg, ops)[0].text) == [line]
  {
    cfg, line := Config(100, 1000), [0x61, 0x63];
    ops := [Crash([[0x61, 0x62]], Writing(1)), Append([[0x63]]), Next];
    OneCrash(ops[0], ops[1], ops[2]);
    TornRun(cfg, ops);
    GluedIsNew(0x61, 0x62, 0x63, ops);
    GluedLine(0x61, 0x63);
  }
}

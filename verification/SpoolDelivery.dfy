/** Order, freshness and what acknowledgements may name, over whole runs. */
module SpoolDelivery {
  import opened Bytes
  import opened Wrappers
  import opened SpoolState
  import opened SpoolHistory
  import SegmentName
  import SpoolCap

  predicate Opens(op: Op) {
    op.Reopen? || op.Crash?
  }

  /** The batches handed out since the spool was last opened. */
  ghost function Session(cfg: Config, ops: seq<Op>): seq<Batch> {
    if ops == [] || Opens(ops[|ops| - 1]) then []
    else
      var before := ops[..|ops| - 1];
      var out := Output(Run(cfg, before), ops[|ops| - 1]);
      Session(cfg, before) + (if out.Some? then [out.value] else [])
  }

  predicate HandedOut(bs: seq<Batch>, id: nat) {
    exists j :: 0 <= j < |bs| && bs[j].id == id
  }

  // ----- order and freshness -----

  ghost predicate InOrder(bs: seq<Batch>) {
    forall i, j | 0 <= i < j < |bs| :: bs[i].id <= bs[j].id && (bs[i].id == bs[j].id ==> bs[i].text == bs[j].text)
  }

  /** Nothing older than a served batch is left, and a served segment still there is unchanged. */
  ghost predicate Current(closed: map<nat, Bytes>, nextSeq: nat, bs: seq<Batch>) {
    forall j | 0 <= j < |bs| ::
      && bs[j].id < nextSeq
      && (forall n | n in closed :: bs[j].id <= n)
      && (bs[j].id in closed ==> Trim(closed[bs[j].id]) == bs[j].text)
  }

  lemma CurrentAfterRemoval(s: State, t: State, bs: seq<Batch>)
    requires Current(s.closed, s.nextSeq, bs) && t.nextSeq == s.nextSeq
    requires t.closed.Keys <= s.closed.Keys && forall n | n in t.closed :: t.closed[n] == s.closed[n]
    ensures Current(t.closed, t.nextSeq, bs)
  {
  }

  lemma CurrentAfterRotate(s: State, bs: seq<Batch>)
    requires Current(s.closed, s.nextSeq, bs)
    ensures Current(Rotate(s).closed, Rotate(s).nextSeq, bs)
  {
  }

  lemma CurrentStep(cfg: Config, s: State, op: Op, bs: seq<Batch>)
    requires Current(s.closed, s.nextSeq, bs) && InOrder(bs) && !Opens(op)
    requires Fresh(s.closed, s.nextSeq)
    ensures var out := Output(s, op);
            var after := bs + (if out.Some? then [out.value] else []);
            Current(Step(cfg, s, op).closed, Step(cfg, s, op).nextSeq, after) && InOrder(after)
  {
    match op
    case Append(lines) =>
      if lines != [] {
        var t := RotateIfFull(cfg, Written(s, lines));
        CurrentAfterRotate(Written(s, lines), bs);
        SpoolCap.EnforceCapShortestPrefix(cfg, t);
        CurrentAfterRemoval(t, EnforceCap(cfg, t), bs);
      }
      assert bs + [] == bs;
    case Next =>
      CurrentAfterRotate(s, bs);
      if Output(s, op).None? { assert bs + [] == bs; }
    case Ack(id) =>
      CurrentAfterRemoval(s, AfterAck(s, id), bs);
      assert bs + [] == bs;
  }

  lemma {:induction false} SessionCurrent(cfg: Config, ops: seq<Op>)
    ensures Current(Run(cfg, ops).closed, Run(cfg, ops).nextSeq, Session(cfg, ops)) && InOrder(Session(cfg, ops))
  {
    if ops != [] && !Opens(ops[|ops| - 1]) {
      var before := ops[..|ops| - 1];
      SessionCurrent(cfg, before);
      Conservation(cfg, before);
      CurrentStep(cfg, Run(cfg, before), ops[|ops| - 1], Session(cfg, before));
    }
  }

  /** Between two opens served ids never decrease, and one id always carries one text. */
  lemma {:induction false} ServedInOrder(cfg: Config, ops: seq<Op>, i: nat, j: nat)
    requires i < j < |Session(cfg, ops)|
    ensures var bs := Session(cfg, ops);
            bs[i].id <= bs[j].id && (bs[i].id == bs[j].id ==> bs[i].text == bs[j].text)
  {
    SessionCurrent(cfg, ops);
  }

  // ----- acknowledgements -----

  /** Every acknowledgement names a batch handed out since the spool was last opened. */
  ghost predicate Obedient(cfg: Config, ops: seq<Op>) {
    ops == [] ||
    var before, op := ops[..|ops| - 1], ops[|ops| - 1];
    && Obedient(cfg, before)
    && (op.Ack? && SegmentName.Parse(op.id).Some? ==> HandedOut(Session(cfg, before), SegmentName.Parse(op.id).value))
  }

  // ----- drops are counted -----

  ghost function DroppedParts(parts: seq<Part>): set<nat> {
    set i: nat | i < |parts| && parts[i].fate.Dropped?
  }

  lemma OneClosed(parts: seq<Part>, i: nat, k: nat)
    requires Ordered(parts) && i < |parts| && k < |parts|
    requires parts[i].fate.Closed? && parts[i].fate == parts[k].fate
    ensures i == k
  {
  }

  lemma MarkCountsAt(parts: seq<Part>, n: nat, k: nat)
    requires Ordered(parts) && k < |parts| && parts[k].fate == Closed(n)
    ensures DroppedParts(MarkParts(parts, n, Dropped)) == DroppedParts(parts) + {k}
  {
    var r := MarkParts(parts, n, Dropped);
    forall i: nat | i < |parts|
      ensures r[i].fate.Dropped? <==> parts[i].fate.Dropped? || i == k
    {
      if parts[i].fate == Closed(n) { OneClosed(parts, i, k); }
    }
  }

  lemma MarkCounts(s: State, h: History, n: nat)
    requires Accounts(s, h) && n in s.closed
    ensures |DroppedParts(Mark(h, n, Dropped).parts)| == |DroppedParts(h.parts)| + 1
  {
    assert Holds(h.parts, n);
    var k: nat :| k < |h.parts| && h.parts[k].fate == Closed(n);
    MarkCountsAt(h.parts, n, k);
    assert k !in DroppedParts(h.parts);
  }

  ghost predicate Counted(s: State, h: History, earlier: int) {
    |DroppedParts(h.parts)| == earlier + s.dropped
  }

  lemma {:induction false} AbsorbCounts(cfg: Config, s: State, h: History, lines: seq<Bytes>, limit: nat, earlier: int)
    requires Accounts(s, h) && Counted(s, h, earlier)
    ensures Counted(DropUpTo(cfg, RotateIfFull(cfg, Written(s, lines)), limit),
                    Absorb(cfg, s, h, lines, limit), earlier)
  {
    var s1, h1 := Written(s, lines), Record(h, Wholes(lines));
    RawAppend(h.open, Wholes(lines));
    RawWholes(lines);
    CloseAccounts(s1, h1);
    CloseCounts(s1, h1);
    forall t, g | Accounts(t, g) && Counted(t, g, earlier) && t.closed.Keys != {}
      ensures var n := Least(t.closed.Keys);
              Accounts(DropOldest(t), Mark(g, n, Dropped)) && Counted(DropOldest(t), Mark(g, n, Dropped), earlier)
    {
      DropAccounts(t, g);
      MarkCounts(t, g, Least(t.closed.Keys));
    }
    ShedKeeps((t: State, g: History) => Accounts(t, g) && Counted(t, g, earlier), cfg,
              RotateIfFull(cfg, s1), CloseIfFull(cfg, s1, h1), limit);
  }

  lemma CloseCounts(s: State, h: History)
    ensures |DroppedParts(Close(s, h).parts)| == |DroppedParts(h.parts)|
  {
    assert DroppedParts(Close(s, h).parts) == DroppedParts(h.parts);
  }

  lemma SameDropped(a: seq<Part>, b: seq<Part>)
    requires |a| == |b| && forall i | 0 <= i < |a| :: a[i].fate.Dropped? <==> b[i].fate.Dropped?
    ensures |DroppedParts(a)| == |DroppedParts(b)|
  {
    assert DroppedParts(a) == DroppedParts(b);
  }

  /** Outside an open, the counter moves by exactly the number of parts the cap dropped. */
  lemma DropsAreCounted(cfg: Config, s: State, h: History, op: Op)
    requires Accounts(s, h) && !Opens(op)
    ensures |DroppedParts(Follow(cfg, s, h, op).parts)| - |DroppedParts(h.parts)|
            == Step(cfg, s, op).dropped - s.dropped
  {
    var after := Follow(cfg, s, h, op);
    match op
    case Append(lines) =>
      if lines != [] {
        AbsorbCounts(cfg, s, h, lines, |RotateIfFull(cfg, Written(s, lines)).closed.Keys|,
                     |DroppedParts(h.parts)| - s.dropped);
      }
    case Next =>
      CloseCounts(s, h);
      var g := if s.closed.Keys == {} then Close(s, h) else h;
      SameDropped(g.parts, after.parts);
    case Ack(id) =>
      SameDropped(h.parts, after.parts);
  }

  // ----- where the guarantees end -----

  lemma ReopenNextSeq(s: State)
    requires Fresh(s.closed, s.nextSeq) && 1 <= s.nextSeq
    ensures 1 <= AfterReopen(s).nextSeq <= s.nextSeq
  {
  }

  lemma {:induction false} AbsorbNextSeq(cfg: Config, s: State, lines: seq<Bytes>, limit: nat)
    requires Fresh(s.closed, s.nextSeq) && 1 <= s.nextSeq
    ensures var t := DropUpTo(cfg, RotateIfFull(cfg, Written(s, lines)), limit);
            Fresh(t.closed, t.nextSeq) && s.nextSeq <= t.nextSeq <= s.nextSeq + 1
  {
    SpoolCap.DropsOldestFirst(cfg, RotateIfFull(cfg, Written(s, lines)), limit);
  }

  lemma StepNextSeq(cfg: Config, s: State, op: Op)
    requires Fresh(s.closed, s.nextSeq) && 1 <= s.nextSeq
    ensures 1 <= Step(cfg, s, op).nextSeq <= s.nextSeq + 1
  {
    match op
    case Append(lines) =>
      AbsorbNextSeq(cfg, s, lines, |RotateIfFull(cfg, Written(s, lines)).closed.Keys|);
    case Next =>
    case Ack(id) =>
    case Reopen => ReopenNextSeq(s);
    case Crash(lines, Writing(bytes)) =>
      ReopenNextSeq(s.(current := s.current + Payload(lines)[..Clip(lines, bytes)]));
    case Crash(lines, Capping(drops)) =>
      if lines == [] {
        ReopenNextSeq(s);
      } else {
        AbsorbNextSeq(cfg, s, lines, drops);
        ReopenNextSeq(DropUpTo(cfg, RotateIfFull(cfg, Written(s, lines)), drops));
      }
  }

  ghost predicate NoneHidden(h: History) {
    forall i | 0 <= i < |h.parts| :: !h.parts[i].fate.Hidden?
  }

  lemma AbsorbHidesNone(cfg: Config, s: State, h: History, lines: seq<Bytes>, limit: nat)
    requires NoneHidden(h) && s.nextSeq < SegmentName.LIMIT
    ensures NoneHidden(Absorb(cfg, s, h, lines, limit))
  {
    var s1, h1 := Written(s, lines), Record(h, Wholes(lines));
    ShedKeeps((t: State, g: History) => NoneHidden(g), cfg, RotateIfFull(cfg, s1), CloseIfFull(cfg, s1, h1), limit);
  }

  lemma FollowHidesNone(cfg: Config, s: State, h: History, op: Op)
    requires NoneHidden(h) && s.nextSeq < SegmentName.LIMIT
    ensures NoneHidden(Follow(cfg, s, h, op))
  {
    match op
    case Append(lines) =>
      if lines != [] { AbsorbHidesNone(cfg, s, h, lines, |RotateIfFull(cfg, Written(s, lines)).closed.Keys|); }
    case Crash(lines, Capping(drops)) =>
      if lines != [] { AbsorbHidesNone(cfg, s, h, lines, drops); }
    case _ =>
  }

  /** A run of fewer than 10^16 operations never reaches a name the listing misses. */
  lemma {:induction false} NothingHidden(cfg: Config, ops: seq<Op>)
    requires |ops| < SegmentName.LIMIT
    ensures 1 <= Run(cfg, ops).nextSeq <= |ops| + 1 && NoneHidden(Trace(cfg, ops))
  {
    if ops != [] {
      var before := ops[..|ops| - 1];
      NothingHidden(cfg, before);
      Conservation(cfg, before);
      StepNextSeq(cfg, Run(cfg, before), ops[|ops| - 1]);
      FollowHidesNone(cfg, Run(cfg, before), Trace(cfg, before), ops[|ops| - 1]);
    }
  }

  /** Closing keeps the open file reachable exactly while the next number is below 10^16. */
  lemma RotateKeepsBytesExactlyWhen(s: State)
    requires s.current != [] && s.nextSeq !in s.closed
    ensures Total(Rotate(s)) == Total(s) <==> s.nextSeq < SegmentName.LIMIT
  {
    SumInsert(s.closed, s.nextSeq, s.current);
  }

  /** What opening a directory with the last sixteen-digit name leads to: closing loses the open file. */
  lemma LastNameLosesBytes(last: Bytes, current: Bytes)
    requires current != []
    ensures var s := Open(map[SegmentName.LIMIT - 1 := last], current);
            && Fresh(s.closed, s.nextSeq) && Rotate(s).closed == s.closed && Rotate(s).current == []
            && Total(Rotate(s)) + |current| == Total(s)
  {
    var closed := map[SegmentName.LIMIT - 1 := last];
    assert closed.Keys == {SegmentName.LIMIT - 1};
    assert Greatest(closed.Keys) in closed.Keys;
  }

  // ----- a late acknowledgement -----

  lemma {:induction false} Snoc(cfg: Config, ops: seq<Op>, op: Op)
    ensures Run(cfg, ops + [op]) == Step(cfg, Run(cfg, ops), op)
    ensures Trace(cfg, ops + [op]) == Follow(cfg, Run(cfg, ops), Trace(cfg, ops), op)
    ensures var out := Output(Run(cfg, ops), op);
            var now := if out.Some? then [out.value] else [];
            && Session(cfg, ops + [op]) == (if Opens(op) then [] else Session(cfg, ops) + now)
            && Batches(cfg, ops + [op]) == Batches(cfg, ops) + now
  {
    assert (ops + [op])[..|ops|] == ops;
  }

  /** A run has reached this state and history, with nothing open, and has handed out these batches. */
  ghost predicate At(cfg: Config, ops: seq<Op>, s: State, parts: seq<Part>, batches: seq<Batch>) {
    Run(cfg, ops) == s && Trace(cfg, ops) == History(parts, []) && Batches(cfg, ops) == batches
  }

  /** What one byte's line leaves in a file. */
  function Line(x: byte): Bytes {
    [x, NEWLINE]
  }

  function LinePart(x: byte, fate: Fate, served: bool): Part {
    Part([Whole([x])], fate, served)
  }

  /** A spool that lists one line, as segment 1. */
  function Listing(x: byte): State {
    State(map[1 := Line(x)], [], 2, 0)
  }

  lemma WrittenLine(x: byte)
    ensures Written(State(map[], [], 1, 0), [[x]]) == State(map[], Line(x), 1, 0) && Wholes([[x]]) == [Whole([x])]
  {
    assert Payload([[x]]) == [x] + [NEWLINE] + Payload([]);
    assert [] + Payload([[x]]) == Line(x);
    assert Wholes([[x]]) == [Whole([x])] + Wholes([]);
  }

  lemma ListingTotal(x: byte)
    ensures Total(Listing(x)) == 2
  {
    SumInsert(map[], 1, Line(x));
  }

  lemma AppendOne(cfg: Config, parts: seq<Part>, x: byte)
    requires cfg == Config(1, 100)
    ensures Step(cfg, State(map[], [], 1, 0), Append([[x]])) == Listing(x)
    ensures Follow(cfg, State(map[], [], 1, 0), History(parts, []), Append([[x]])) ==
            History(parts + [LinePart(x, Closed(1), false)], [])
  {
    WrittenLine(x);
    ListingTotal(x);
    assert Rotate(State(map[], Line(x), 1, 0)) == Listing(x);
    assert [] + [Whole([x])] == [Whole([x])];
  }

  lemma {:induction false} AtAppend(cfg: Config, ops: seq<Op>, parts: seq<Part>, batches: seq<Batch>, x: byte)
    requires cfg == Config(1, 100) && At(cfg, ops, State(map[], [], 1, 0), parts, batches)
    ensures var after := ops + [Append([[x]])];
            && At(cfg, after, Listing(x), parts + [LinePart(x, Closed(1), false)], batches)
            && Session(cfg, after) == Session(cfg, ops)
  {
    Snoc(cfg, ops, Append([[x]]));
    AppendOne(cfg, parts, x);
  }

  lemma ServeOne(x: byte)
    ensures Output(Listing(x), Next) == Some(Batch(1, Line(x))) && Least(Listing(x).closed.Keys) == 1
  {
    LeastIs(Listing(x).closed.Keys, 1);
  }

  lemma AtNext(cfg: Config, ops: seq<Op>, x: byte)
    requires At(cfg, ops, Listing(x), [LinePart(x, Closed(1), false)], [])
    ensures At(cfg, ops + [Next], Listing(x), [LinePart(x, Closed(1), true)], [Batch(1, Line(x))])
  {
    Snoc(cfg, ops, Next);
    ServeOne(x);
    assert DeliverParts([LinePart(x, Closed(1), false)], 1) == [LinePart(x, Closed(1), true)];
  }

  /** Acknowledging the one listed segment, the last part, empties the directory. */
  lemma AtAck(cfg: Config, ops: seq<Op>, earlier: seq<Part>, x: byte, served: bool, batches: seq<Batch>)
    requires At(cfg, ops, Listing(x), earlier + [LinePart(x, Closed(1), served)], batches)
    requires forall i | 0 <= i < |earlier| :: earlier[i].fate.Acked?
    ensures At(cfg, ops + [Ack(SegmentName.Name(1))], State(map[], [], 2, 0),
               earlier + [LinePart(x, Acked, served)], batches)
  {
    Snoc(cfg, ops, Ack(SegmentName.Name(1)));
    SegmentName.ParseName(1);
    assert MarkParts(earlier + [LinePart(x, Closed(1), served)], 1, Acked) == earlier + [LinePart(x, Acked, served)];
    assert map[1 := Line(x)] - {1} == map[];
  }

  lemma {:induction false} AtReopen(cfg: Config, ops: seq<Op>, parts: seq<Part>, batches: seq<Batch>)
    requires At(cfg, ops, State(map[], [], 2, 0), parts, batches)
    ensures At(cfg, ops + [Reopen], State(map[], [], 1, 0), parts, batches) && Session(cfg, ops + [Reopen]) == []
  {
    Snoc(cfg, ops, Reopen);
  }

  /** One batch appended, served and acknowledged, then the spool reopened on the empty directory. */
  lemma FirstSession(cfg: Config, x: byte) returns (ops: seq<Op>)
    requires cfg == Config(1, 100)
    ensures At(cfg, ops, State(map[], [], 1, 0), [LinePart(x, Acked, true)], [Batch(1, Line(x))])
    ensures Session(cfg, ops) == []
  {
    AtAppend(cfg, [], [], [], x);
    ops := [] + [Append([[x]])];
    AtNext(cfg, ops, x);
    ops := ops + [Next];
    AtAck(cfg, ops, [], x, true, [Batch(1, Line(x))]);
    ops := ops + [Ack(SegmentName.Name(1))];
    AtReopen(cfg, ops, [LinePart(x, Acked, true)], [Batch(1, Line(x))]);
    ops := ops + [Reopen];
  }

  lemma LineText(p: Part, x: byte)
    requires p.pieces == [Whole([x])]
    ensures Trim(Raw(p.pieces)) == Line(x)
  {
    var line: Bytes := [x];
    assert p.pieces[0] == Whole(line) && p.pieces[1..] == [];
    assert Raw(p.pieces) == line + [NEWLINE] + [];
    assert Raw(p.pieces) == Line(x);
  }

  /** Part `i` left through an acknowledgement though nobody was ever given its text. */
  ghost predicate Lost(cfg: Config, ops: seq<Op>, i: nat) {
    && i < |Trace(cfg, ops).parts| && Trace(cfg, ops).parts[i].fate.Acked?
    && forall j | 0 <= j < |Batches(cfg, ops)| ::
         Batches(cfg, ops)[j].text != Trim(Raw(Trace(cfg, ops).parts[i].pieces))
  }

  /**
   A condition on acknowledgements is needed: a repeated one that arrives after a reopen can delete
   a batch nobody was given, because an emptied directory reuses its numbers.
   */
  lemma LateAckLosesUnservedBatch() returns (cfg: Config, ops: seq<Op>)
    ensures Lost(cfg, ops, 1) && !Obedient(cfg, ops)
  {
    cfg := Config(1, 100);
    var x, y: byte := 0x61, 0x62;
    ops := FirstSession(cfg, x);
    AtAppend(cfg, ops, [LinePart(x, Acked, true)], [Batch(1, Line(x))], y);
    ops := ops + [Append([[y]])];
    SecondAck(cfg, ops, x, y);
    ops := ops + [Ack(SegmentName.Name(1))];
  }

  lemma {:induction false} SecondAck(cfg: Config, ops: seq<Op>, x: byte, y: byte)
    requires x != y && Session(cfg, ops) == []
    requires At(cfg, ops, Listing(y), [LinePart(x, Acked, true)] + [LinePart(y, Closed(1), false)], [Batch(1, Line(x))])
    ensures var after := ops + [Ack(SegmentName.Name(1))]; Lost(cfg, after, 1) && !Obedient(cfg, after)
  {
    var after := ops + [Ack(SegmentName.Name(1))];
    AtAck(cfg, ops, [LinePart(x, Acked, true)], y, false, [Batch(1, Line(x))]);
    SegmentName.ParseName(1);
    assert after[..|ops|] == ops;
    LineText(Trace(cfg, after).parts[1], y);
    assert Line(x)[0] != Line(y)[0];
  }

  // ----- single operations -----

  /**
   Asking for a batch leaves everything as it is while something is closed, and otherwise closes the open
   file and serves that. Asking again, with nothing acknowledged, serves the same.
   */
  lemma ServedWhat(s: State)
    ensures var after := RotateIfIdle(s);
            && (s.closed.Keys != {} ==> after == s)
            && (s.closed.Keys == {} && s.current != [] && s.nextSeq < SegmentName.LIMIT ==>
                  after.current == [] && Served(after) == Some(Batch(s.nextSeq, Trim(s.current))))
            && (Served(after).None? <==> s.closed.Keys == {} && (s.current == [] || s.nextSeq >= SegmentName.LIMIT))
            && RotateIfIdle(after) == after
  {
    var after := RotateIfIdle(s);
    if s.closed.Keys == {} && s.current != [] && s.nextSeq < SegmentName.LIMIT {
      assert after.closed == map[s.nextSeq := s.current];
      LeastIs(after.closed.Keys, s.nextSeq);
    }
  }

  /** The answer to an acknowledgement tells whether it removed a segment, and then only the one it names. */
  lemma AckRemoves(s: State, id: string)
    ensures AckResult(s, id) <==> AfterAck(s, id) != s
    ensures forall n | n in s.closed ::
              n !in AfterAck(s, id).closed <==> n < SegmentName.LIMIT && SegmentName.Name(n) == id
    ensures forall n | n in AfterAck(s, id).closed :: n in s.closed && AfterAck(s, id).closed[n] == s.closed[n]
  {
    SegmentName.NameParse(id);
    if AckResult(s, id) {
      var n := SegmentName.Parse(id).value;
      assert n in s.closed && n !in AfterAck(s, id).closed;
    } else {
      assert AfterAck(s, id).closed == s.closed;
    }
    forall n: nat
      ensures n < SegmentName.LIMIT && SegmentName.Name(n) == id <==> SegmentName.Parse(id) == Some(n)
    {
      SegmentName.ParseName(n);
    }
  }

  /** Opening continues after the largest number listed, or at one. */
  lemma OpenContinues(closed: map<nat, Bytes>, current: Bytes)
    ensures var s := Open(closed, current);
            && s.closed == closed && s.current == current && s.dropped == 0
            && (closed.Keys == {} ==> s.nextSeq == 1)
            && (closed.Keys != {} ==> s.nextSeq - 1 in closed && forall n | n in closed :: n < s.nextSeq)
  {
  }

  /** One line is written with its newline, unless it is empty. */
  lemma PayloadOne(line: Bytes)
    ensures Payload([line]) == if line == [] then [] else line + [0x0A]
  {
    assert [line][1..] == [];
  }

  lemma {:induction false} PayloadConcat(a: seq<Bytes>, b: seq<Bytes>)
    ensures Payload(a + b) == Payload(a) + Payload(b)
  {
    if a == [] {
      assert a + b == b;
    } else {
      assert (a + b)[0] == a[0] && (a + b)[1..] == a[1..] + b;
      PayloadConcat(a[1..], b);
    }
  }

  lemma {:induction false} CountConcat(a: seq<Bytes>, b: seq<Bytes>)
    ensures CountNonEmpty(a + b) == CountNonEmpty(a) + CountNonEmpty(b)
  {
    if a == [] {
      assert a + b == b;
    } else {
      assert (a + b)[0] == a[0] && (a + b)[1..] == a[1..] + b;
      CountConcat(a[1..], b);
    }
  }

  /** The number an append returns is the number of lines that are not empty. */
  lemma {:induction false} CountIsLines(lines: seq<Bytes>)
    ensures CountNonEmpty(lines) == |set i: nat | i < |lines| && lines[i] != []|
  {
    var all := set i: nat | i < |lines| && lines[i] != [];
    if lines != [] {
      var n := |lines| - 1;
      var front := lines[..n];
      CountIsLines(front);
      CountConcat(front, [lines[n]]);
      assert lines == front + [lines[n]] && [lines[n]][1..] == [];
      assert (set i: nat | i < |front| && front[i] != []) == all - {n};
    }
  }
}

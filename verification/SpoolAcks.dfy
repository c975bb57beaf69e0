/**
 When acknowledging is safe: the exact condition, over every run, under which nothing leaves the
 spool through an acknowledgement before it was handed out.
 */
module SpoolAcks {
  import opened Bytes
  import opened SpoolHistory
  import opened SpoolState
  import opened Wrappers
  import SegmentName
  import SpoolCap
  import SpoolDelivery
  import SpoolServed

  /** The listed segments that were handed out since they were closed, in whichever session. */
  ghost function Known(cfg: Config, ops: seq<Op>): set<nat> {
    if ops == [] then {}
    else
      var before := ops[..|ops| - 1];
      var out := Output(Run(cfg, before), ops[|ops| - 1]);
      (Known(cfg, before) + Given(out)) * Run(cfg, ops).closed.Keys
  }

  ghost function Given(out: Option<Batch>): set<nat> {
    if out.Some? then {out.value.id} else {}
  }

  /** Every acknowledgement that deletes a segment names a known one. */
  ghost predicate Careful(cfg: Config, ops: seq<Op>) {
    ops == [] ||
    var before, op := ops[..|ops| - 1], ops[|ops| - 1];
    && Careful(cfg, before)
    && (op.Ack? && AckResult(Run(cfg, before), op.id) ==> SegmentName.Parse(op.id).value in Known(cfg, before))
  }

  /** Only what was handed out left through an acknowledgement. */
  ghost predicate Safe(parts: seq<Part>) {
    forall i | 0 <= i < |parts| && parts[i].fate.Acked? :: parts[i].served
  }

  // ----- which parts are known -----

  /** The marks on the closed parts are the known numbers, all of them below the next one. */
  ghost predicate Marked(s: State, h: History, known: set<nat>) {
    && (forall i | 0 <= i < |h.parts| && h.parts[i].fate.Closed? ::
          h.parts[i].served <==> h.parts[i].fate.id in known)
    && (forall n | n in known :: n < s.nextSeq)
  }

  lemma MarkedClose(s: State, h: History, known: set<nat>)
    requires Marked(s, h, known)
    ensures Marked(Rotate(s), Close(s, h), known)
  {
  }

  lemma {:induction false} MarkedAbsorb(
    cfg: Config, s: State, h: History, lines: seq<Bytes>, limit: nat, known: set<nat>
  )
    requires Marked(s, h, known)
    ensures Marked(DropUpTo(cfg, RotateIfFull(cfg, Written(s, lines)), limit), Absorb(cfg, s, h, lines, limit), known)
  {
    var s1, h1 := Written(s, lines), Record(h, Wholes(lines));
    MarkedClose(s1, h1, known);
    var inv := (t: State, g: History) => Marked(t, g, known);
    forall t, g | inv(t, g) && t.closed.Keys != {}
      ensures inv(DropOldest(t), Mark(g, Least(t.closed.Keys), Dropped))
    {
    }
    ShedKeeps(inv, cfg, RotateIfFull(cfg, s1), CloseIfFull(cfg, s1, h1), limit);
  }

  lemma MarkedDeliver(s: State, h: History, known: set<nat>, n: nat)
    requires Marked(s, h, known) && n < s.nextSeq
    ensures Marked(s, Deliver(h, n), known + {n})
  {
  }

  /** Numbers no longer listed can be forgotten, and an open may lower the next number to match. */
  lemma MarkedListed(s: State, h: History, known: set<nat>, nextSeq: nat)
    requires Marked(s, h, known) && OnDisk(s.closed, h.parts) && Fresh(s.closed, nextSeq)
    ensures Marked(s.(nextSeq := nextSeq), h, known * s.closed.Keys)
  {
  }

  lemma MarkedMark(s: State, h: History, known: set<nat>, n: nat)
    requires Marked(s, h, known)
    ensures Marked(s.(closed := s.closed - {n}), Mark(h, n, Acked), known)
  {
  }

  lemma MarkedNext(cfg: Config, s: State, h: History, known: set<nat>)
    requires Accounts(s, h) && Marked(s, h, known)
    ensures Marked(Step(cfg, s, Next), Follow(cfg, s, h, Next),
                   (known + Given(Output(s, Next))) * Step(cfg, s, Next).closed.Keys)
  {
    var t, g := RotateIfIdle(s), if s.closed.Keys == {} then Close(s, h) else h;
    StepAccounts(cfg, s, h, Next);
    CloseAccounts(s, h);
    MarkedClose(s, h, known);
    if t.closed.Keys != {} {
      MarkedDeliver(t, g, known, Least(t.closed.Keys));
    } else {
      assert known + Given(None) == known;
    }
    MarkedListed(t, Follow(cfg, s, h, Next), known + Given(Output(s, Next)), t.nextSeq);
  }

  lemma MarkedAppend(cfg: Config, s: State, h: History, lines: seq<Bytes>, known: set<nat>)
    requires Accounts(s, h) && Marked(s, h, known)
    ensures var op := Append(lines);
            Marked(Step(cfg, s, op), Follow(cfg, s, h, op), known * Step(cfg, s, op).closed.Keys)
  {
    var t := AfterAppend(cfg, s, lines);
    StepAccounts(cfg, s, h, Append(lines));
    if lines != [] {
      MarkedAbsorb(cfg, s, h, lines, |RotateIfFull(cfg, Written(s, lines)).closed.Keys|, known);
    }
    MarkedListed(t, Follow(cfg, s, h, Append(lines)), known, t.nextSeq);
  }

  lemma MarkedCrash(cfg: Config, s: State, h: History, lines: seq<Bytes>, at: CrashPoint, known: set<nat>)
    requires Accounts(s, h) && Marked(s, h, known)
    ensures var op := Crash(lines, at);
            Marked(Step(cfg, s, op), Follow(cfg, s, h, op), known * Step(cfg, s, op).closed.Keys)
  {
    var t := AfterCrash(cfg, s, lines, at);
    StepAccounts(cfg, s, h, Crash(lines, at));
    if at.Capping? && lines != [] {
      MarkedAbsorb(cfg, s, h, lines, at.drops, known);
      var u := DropUpTo(cfg, RotateIfFull(cfg, Written(s, lines)), at.drops);
      MarkedListed(u, Absorb(cfg, s, h, lines, at.drops), known, t.nextSeq);
    } else {
      MarkedListed(s, h, known, t.nextSeq);
    }
  }

  lemma MarkedAck(cfg: Config, s: State, h: History, id: string, known: set<nat>)
    requires Accounts(s, h) && Marked(s, h, known)
    ensures var op := Ack(id); Marked(Step(cfg, s, op), Follow(cfg, s, h, op), known * Step(cfg, s, op).closed.Keys)
  {
    if SegmentName.Parse(id).Some? {
      var n := SegmentName.Parse(id).value;
      MarkAccounts(s, h, n, Acked);
      MarkedMark(s, h, known, n);
      MarkedListed(s.(closed := s.closed - {n}), Mark(h, n, Acked), known, s.nextSeq);
    } else {
      MarkedListed(s, h, known, s.nextSeq);
    }
  }

  lemma MarkedReopen(s: State, h: History, known: set<nat>)
    requires Accounts(s, h) && Marked(s, h, known)
    ensures Marked(AfterReopen(s), h, known * AfterReopen(s).closed.Keys)
  {
    ReopenAccounts(s, h);
    MarkedListed(s, h, known, AfterReopen(s).nextSeq);
  }

  lemma MarkedStep(cfg: Config, s: State, h: History, op: Op, known: set<nat>)
    requires Accounts(s, h) && Marked(s, h, known)
    ensures Marked(Step(cfg, s, op), Follow(cfg, s, h, op),
                   (known + Given(Output(s, op))) * Step(cfg, s, op).closed.Keys)
  {
    if op.Next? {
      MarkedNext(cfg, s, h, known);
    } else {
      assert known + Given(Output(s, op)) == known;
      match op {
        case Append(lines) => MarkedAppend(cfg, s, h, lines, known);
        case Ack(id) => MarkedAck(cfg, s, h, id, known);
        case Reopen => MarkedReopen(s, h, known);
        case Crash(lines, at) => MarkedCrash(cfg, s, h, lines, at, known);
      }
    }
  }

  lemma {:induction false} RunMarked(cfg: Config, ops: seq<Op>)
    ensures Marked(Run(cfg, ops), Trace(cfg, ops), Known(cfg, ops))
  {
    if ops != [] {
      var before := ops[..|ops| - 1];
      RunMarked(cfg, before);
      Conservation(cfg, before);
      MarkedStep(cfg, Run(cfg, before), Trace(cfg, before), ops[|ops| - 1], Known(cfg, before));
    }
  }

  // ----- which steps are safe -----

  lemma SafeAbsorb(cfg: Config, s: State, h: History, lines: seq<Bytes>, limit: nat)
    ensures Safe(Absorb(cfg, s, h, lines, limit).parts) <==> Safe(h.parts)
  {
    var s1, h1 := Written(s, lines), Record(h, Wholes(lines));
    var inv := (t: State, g: History) => Safe(g.parts) <==> Safe(h.parts);
    forall t, g | inv(t, g) && t.closed.Keys != {}
      ensures inv(DropOldest(t), Mark(g, Least(t.closed.Keys), Dropped))
    {
      SafeMark(g, Least(t.closed.Keys));
    }
    SafeClose(s1, h1);
    ShedKeeps(inv, cfg, RotateIfFull(cfg, s1), CloseIfFull(cfg, s1, h1), limit);
  }

  lemma SafeMark(h: History, n: nat)
    ensures Safe(Mark(h, n, Dropped).parts) <==> Safe(h.parts)
  {
    var r := Mark(h, n, Dropped).parts;
    assert forall i | 0 <= i < |r| :: r[i].fate.Acked? <==> h.parts[i].fate.Acked?;
  }

  lemma SafeClose(s: State, h: History)
    ensures Safe(Close(s, h).parts) <==> Safe(h.parts)
  {
    var r := Close(s, h).parts;
    assert forall i | 0 <= i < |h.parts| :: r[i] == h.parts[i];
  }

  lemma SafeDeliver(h: History, n: nat)
    ensures Safe(Deliver(h, n).parts) <==> Safe(h.parts)
  {
    var r := Deliver(h, n).parts;
    assert forall i | 0 <= i < |r| :: r[i].fate == h.parts[i].fate && (r[i].fate.Acked? ==> r[i] == h.parts[i]);
  }

  /** An acknowledgement stays safe exactly when what it deletes is known. */
  lemma SafeAck(s: State, h: History, known: set<nat>, n: nat)
    requires Accounts(s, h) && Marked(s, h, known)
    ensures Safe(Mark(h, n, Acked).parts) <==> Safe(h.parts) && (n in s.closed ==> n in known)
  {
    var r := Mark(h, n, Acked).parts;
    assert forall i | 0 <= i < |r| && h.parts[i].fate.Acked? :: r[i] == h.parts[i];
    if n in s.closed {
      assert Holds(h.parts, n);
      var k :| 0 <= k < |h.parts| && h.parts[k].fate == Closed(n);
      assert r[k].fate == Acked && (r[k].served <==> n in known);
    }
  }

  lemma SafeStep(cfg: Config, s: State, h: History, op: Op, known: set<nat>)
    requires Accounts(s, h) && Marked(s, h, known)
    ensures Safe(Follow(cfg, s, h, op).parts) <==>
            Safe(h.parts) && (op.Ack? && AckResult(s, op.id) ==> SegmentName.Parse(op.id).value in known)
  {
    match op {
      case Append(lines) =>
        if lines != [] { SafeAbsorb(cfg, s, h, lines, |RotateIfFull(cfg, Written(s, lines)).closed.Keys|); }
      case Next =>
        var t := RotateIfIdle(s);
        SafeClose(s, h);
        if t.closed.Keys != {} {
          SafeDeliver(if s.closed.Keys == {} then Close(s, h) else h, Least(t.closed.Keys));
        }
      case Ack(id) =>
        if SegmentName.Parse(id).Some? { SafeAck(s, h, known, SegmentName.Parse(id).value); }
      case Reopen =>
      case Crash(lines, at) =>
        if at.Capping? && lines != [] { SafeAbsorb(cfg, s, h, lines, at.drops); }
    }
  }

  /**
   The exact condition: in every run, only what was handed out leaves through an acknowledgement
   if and only if every acknowledgement that deletes a segment names one handed out since it was
   closed.
   */
  lemma {:induction false} SafeExactlyWhen(cfg: Config, ops: seq<Op>)
    ensures Safe(Trace(cfg, ops).parts) <==> Careful(cfg, ops)
  {
    if ops != [] {
      var before := ops[..|ops| - 1];
      SafeExactlyWhen(cfg, before);
      Conservation(cfg, before);
      RunMarked(cfg, before);
      SafeStep(cfg, Run(cfg, before), Trace(cfg, before), ops[|ops| - 1], Known(cfg, before));
    }
  }

  // ----- batches of the session are known -----

  /** An operation that is not an open closes at most the file with the next number. */
  lemma OnlyNextIsNew(cfg: Config, s: State, op: Op, n: nat)
    requires !SpoolDelivery.Opens(op) && n in Step(cfg, s, op).closed
    ensures n in s.closed || n == s.nextSeq
  {
    if op.Append? && op.lines != [] {
      SpoolCap.EnforceCapShortestPrefix(cfg, RotateIfFull(cfg, Written(s, op.lines)));
    }
  }

  lemma {:induction false} SessionIsKnown(cfg: Config, ops: seq<Op>, n: nat)
    requires n in Run(cfg, ops).closed && SpoolDelivery.HandedOut(SpoolDelivery.Session(cfg, ops), n)
    ensures n in Known(cfg, ops)
  {
    if ops != [] && !SpoolDelivery.Opens(ops[|ops| - 1]) {
      var before, op := ops[..|ops| - 1], ops[|ops| - 1];
      var session, out := SpoolDelivery.Session(cfg, before), Output(Run(cfg, before), op);
      if n !in Given(out) {
        assert SpoolDelivery.HandedOut(session, n);
        OnlyNextIsNew(cfg, Run(cfg, before), op, n);
        SpoolDelivery.SessionCurrent(cfg, before);
        SessionIsKnown(cfg, before, n);
      }
    }
  }

  /** Naming batches handed out since the last open is enough. */
  lemma {:induction false} ObedientIsCareful(cfg: Config, ops: seq<Op>)
    requires SpoolDelivery.Obedient(cfg, ops)
    ensures Careful(cfg, ops)
  {
    if ops != [] {
      var before, op := ops[..|ops| - 1], ops[|ops| - 1];
      ObedientIsCareful(cfg, before);
      if op.Ack? && AckResult(Run(cfg, before), op.id) {
        SessionIsKnown(cfg, before, SegmentName.Parse(op.id).value);
      }
    }
  }

  // ----- at least once -----

  /** Operation `j` of the run hands out part `i`, then listed as segment `n`, with this text. */
  ghost predicate HandsOut(cfg: Config, ops: seq<Op>, j: nat, i: nat, n: nat, text: Bytes) {
    && j < |ops| && Output(Run(cfg, ops[..j]), ops[j]) == Some(Batch(n, text))
    && i < |Trace(cfg, ops[..j + 1]).parts| && Trace(cfg, ops[..j + 1]).parts[i].fate == Closed(n)
  }

  /** Operation `k` of the run acknowledges part `i`, then listed as segment `n`. */
  ghost predicate Acknowledges(cfg: Config, ops: seq<Op>, k: nat, i: nat, n: nat) {
    && k < |ops| && ops[k].Ack? && SegmentName.Parse(ops[k].id) == Some(n)
    && i < |Trace(cfg, ops[..k]).parts| && Trace(cfg, ops[..k]).parts[i].fate == Closed(n)
  }

  /** The part was handed out, all of it but a torn tail, before the acknowledgement that took it. */
  ghost predicate ShownFirst(cfg: Config, ops: seq<Op>, i: nat, text: Bytes) {
    exists j: nat, k: nat, n: nat :: j < k && HandsOut(cfg, ops, j, i, n, text) && Acknowledges(cfg, ops, k, i, n)
  }

  lemma SamePrefix(ops: seq<Op>, before: seq<Op>, j: nat)
    requires before <= ops && j < |before|
    ensures ops[..j] == before[..j] && ops[..j + 1] == before[..j + 1] && ops[j] == before[j]
  {
  }

  /** Parts marked or acknowledged in `g` were so in `h`. */
  ghost predicate NothingNew(h: History, g: History) {
    forall i | 0 <= i < |g.parts| ::
      && (g.parts[i].fate.Acked? ==> i < |h.parts| && h.parts[i].fate.Acked?)
      && (g.parts[i].served ==> i < |h.parts| && h.parts[i].served)
  }

  lemma AbsorbNothingNew(cfg: Config, s: State, h: History, lines: seq<Bytes>, limit: nat)
    ensures NothingNew(h, Absorb(cfg, s, h, lines, limit))
  {
    var s1, h1 := Written(s, lines), Record(h, Wholes(lines));
    var inv := (t: State, g: History) => NothingNew(h, g);
    forall t, g | inv(t, g) && t.closed.Keys != {}
      ensures inv(DropOldest(t), Mark(g, Least(t.closed.Keys), Dropped))
    {
    }
    ShedKeeps(inv, cfg, RotateIfFull(cfg, s1), CloseIfFull(cfg, s1, h1), limit);
  }

  lemma StepNothingNew(cfg: Config, s: State, h: History, op: Op)
    requires !op.Ack? && !op.Next?
    ensures NothingNew(h, Follow(cfg, s, h, op))
  {
    match op
    case Append(lines) =>
      if lines != [] { AbsorbNothingNew(cfg, s, h, lines, |RotateIfFull(cfg, Written(s, lines)).closed.Keys|); }
    case Reopen =>
    case Crash(lines, at) =>
      if at.Capping? && lines != [] { AbsorbNothingNew(cfg, s, h, lines, at.drops); }
  }

  /** A part that is listed is the file with its number. */
  lemma {:induction false} ListedPart(cfg: Config, ops: seq<Op>, i: nat, n: nat)
    requires i < |Trace(cfg, ops).parts| && Trace(cfg, ops).parts[i].fate == Closed(n)
    ensures n in Run(cfg, ops).closed && Run(cfg, ops).closed[n] == Raw(Trace(cfg, ops).parts[i].pieces)
  {
    Conservation(cfg, ops);
  }

  /** The operation that just marked a part handed it out. */
  lemma MarkedNow(cfg: Config, ops: seq<Op>, i: nat) returns (n: nat)
    requires ops != [] && i < |Trace(cfg, ops).parts| && Trace(cfg, ops).parts[i].served
    requires var was := Trace(cfg, ops[..|ops| - 1]).parts; i < |was| ==> !was[i].served
    ensures HandsOut(cfg, ops, |ops| - 1, i, n, Trim(Raw(Trace(cfg, ops).parts[i].pieces)))
  {
    var before, op := ops[..|ops| - 1], ops[|ops| - 1];
    if !op.Ack? && !op.Next? { StepNothingNew(cfg, Run(cfg, before), Trace(cfg, before), op); }
    n := Trace(cfg, ops).parts[i].fate.id;
    ListedPart(cfg, ops, i, n);
    assert ops[..|ops|] == ops;
  }

  lemma HandsOutLater(cfg: Config, ops: seq<Op>, before: seq<Op>, j: nat, i: nat, n: nat, text: Bytes)
    requires HandsOut(cfg, before, j, i, n, text) && before <= ops
    ensures HandsOut(cfg, ops, j, i, n, text)
  {
    SamePrefix(ops, before, j);
  }

  /** Every mark of delivery is backed by a batch that was the part itself. */
  lemma {:induction false} MarkIsShown(cfg: Config, ops: seq<Op>, i: nat) returns (j: nat, n: nat)
    requires i < |Trace(cfg, ops).parts| && Trace(cfg, ops).parts[i].served
    ensures HandsOut(cfg, ops, j, i, n, Trim(Raw(Trace(cfg, ops).parts[i].pieces)))
  {
    var before := ops[..|ops| - 1];
    if i < |Trace(cfg, before).parts| && Trace(cfg, before).parts[i].served {
      j, n := MarkIsShown(cfg, before, i);
      PartKept(cfg, ops, |before|, i);
      HandsOutLater(cfg, ops, before, j, i, n, Trim(Raw(Trace(cfg, ops).parts[i].pieces)));
    } else {
      j := |before|;
      n := MarkedNow(cfg, ops, i);
    }
  }

  /** From some point of a run on, a part stays the same file, and is listed only under the same number. */
  lemma {:induction false} PartKept(cfg: Config, ops: seq<Op>, k: nat, i: nat)
    requires k <= |ops| && i < |Trace(cfg, ops[..k]).parts|
    ensures i < |Trace(cfg, ops).parts|
    ensures var p, q := Trace(cfg, ops[..k]).parts[i], Trace(cfg, ops).parts[i];
            p.pieces == q.pieces && (p.served ==> q.served) && (q.fate.Closed? ==> q.fate == p.fate)
  {
    SpoolServed.TraceExtends(cfg, ops[..k], ops[k..]);
    assert ops == ops[..k] + ops[k..];
  }

  /** And what was handed out is marked. */
  lemma {:induction false} ShownIsMarked(cfg: Config, ops: seq<Op>, j: nat, i: nat, n: nat, text: Bytes)
    requires HandsOut(cfg, ops, j, i, n, text)
    ensures i < |Trace(cfg, ops).parts| && Trace(cfg, ops).parts[i].served
  {
    PartKept(cfg, ops, j + 1, i);
    assert ops[..j + 1][..|ops[..j + 1]| - 1] == ops[..j];
  }

  /** The acknowledgement that just took a part names its segment. */
  lemma AckedNow(cfg: Config, ops: seq<Op>, i: nat) returns (n: nat)
    requires ops != [] && i < |Trace(cfg, ops).parts| && Trace(cfg, ops).parts[i].fate.Acked?
    requires var was := Trace(cfg, ops[..|ops| - 1]).parts; i < |was| ==> !was[i].fate.Acked?
    ensures Acknowledges(cfg, ops, |ops| - 1, i, n)
  {
    var before, op := ops[..|ops| - 1], ops[|ops| - 1];
    if !op.Ack? && !op.Next? { StepNothingNew(cfg, Run(cfg, before), Trace(cfg, before), op); }
    n := SegmentName.Parse(op.id).value;
  }

  lemma {:induction false} AckedByOperation(cfg: Config, ops: seq<Op>, i: nat) returns (k: nat, n: nat)
    requires i < |Trace(cfg, ops).parts| && Trace(cfg, ops).parts[i].fate.Acked?
    ensures Acknowledges(cfg, ops, k, i, n)
  {
    var before := ops[..|ops| - 1];
    if i < |Trace(cfg, before).parts| && Trace(cfg, before).parts[i].fate.Acked? {
      k, n := AckedByOperation(cfg, before, i);
      SamePrefix(ops, before, k);
    } else {
      k := |before|;
      n := AckedNow(cfg, ops, i);
    }
  }

  lemma {:induction false} AckedGone(cfg: Config, ops: seq<Op>, k: nat, i: nat, n: nat)
    requires Acknowledges(cfg, ops, k, i, n)
    ensures i < |Trace(cfg, ops[..k + 1]).parts| && Trace(cfg, ops[..k + 1]).parts[i].fate == Acked
  {
    var after := ops[..k + 1];
    assert after[..|after| - 1] == ops[..k] && after[|after| - 1] == ops[k];
  }

  /** A part is handed out only before it is acknowledged, and under the same number. */
  lemma ShownBefore(cfg: Config, ops: seq<Op>, j: nat, k: nat, i: nat, m: nat, n: nat, text: Bytes)
    requires HandsOut(cfg, ops, j, i, m, text) && Acknowledges(cfg, ops, k, i, n)
    ensures j < k && m == n
  {
    if j < k {
      assert ops[..k][..j + 1] == ops[..j + 1];
      PartKept(cfg, ops[..k], j + 1, i);
    } else {
      AckedGone(cfg, ops, k, i, n);
      assert ops[..j + 1][..k + 1] == ops[..k + 1];
      PartKept(cfg, ops[..j + 1], k + 1, i);
      assert false;
    }
  }

  /**
   At-least-once delivery, and its exact condition: in every run, each part of the log that left
   through an acknowledgement had itself been handed out before, if and only if the run is careful.
   */
  lemma {:induction false} AtLeastOnceExactlyWhen(cfg: Config, ops: seq<Op>)
    ensures (forall i | 0 <= i < |Trace(cfg, ops).parts| && Trace(cfg, ops).parts[i].fate.Acked? ::
               ShownFirst(cfg, ops, i, Trim(Raw(Trace(cfg, ops).parts[i].pieces))))
            <==> Careful(cfg, ops)
  {
    var parts := Trace(cfg, ops).parts;
    SafeExactlyWhen(cfg, ops);
    forall i | 0 <= i < |parts| && parts[i].fate.Acked?
      ensures ShownFirst(cfg, ops, i, Trim(Raw(parts[i].pieces))) <==> parts[i].served
    {
      AckedShown(cfg, ops, i);
    }
  }

  lemma {:induction false} AckedShown(cfg: Config, ops: seq<Op>, i: nat)
    requires i < |Trace(cfg, ops).parts| && Trace(cfg, ops).parts[i].fate.Acked?
    ensures ShownFirst(cfg, ops, i, Trim(Raw(Trace(cfg, ops).parts[i].pieces))) <==> Trace(cfg, ops).parts[i].served
  {
    var text := Trim(Raw(Trace(cfg, ops).parts[i].pieces));
    if Trace(cfg, ops).parts[i].served {
      var j, m := MarkIsShown(cfg, ops, i);
      var k, n := AckedByOperation(cfg, ops, i);
      ShownBefore(cfg, ops, j, k, i, m, n, text);
    } else if ShownFirst(cfg, ops, i, text) {
      var j: nat, k: nat, n: nat :| j < k && HandsOut(cfg, ops, j, i, n, text) && Acknowledges(cfg, ops, k, i, n);
      ShownIsMarked(cfg, ops, j, i, n, text);
    }
  }

  /** In particular when every acknowledgement names a batch handed out since the last open. */
  lemma {:induction false} AtLeastOnce(cfg: Config, ops: seq<Op>, i: nat)
    requires SpoolDelivery.Obedient(cfg, ops)
    requires i < |Trace(cfg, ops).parts| && Trace(cfg, ops).parts[i].fate.Acked?
    ensures ShownFirst(cfg, ops, i, Trim(Raw(Trace(cfg, ops).parts[i].pieces)))
  {
    ObedientIsCareful(cfg, ops);
    AtLeastOnceExactlyWhen(cfg, ops);
  }
}

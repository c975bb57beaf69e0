/**
 Where every appended line went. A history lists, in append order, the parts the log was cut into
 when the open file was closed, with each part's fate, followed by what the open file holds.
 `Accounts` says that the directory is exactly what the history leaves over.
 */
module SpoolHistory {
  import opened Bytes
  import opened Wrappers
  import opened SpoolState
  import SegmentName

  /** What one write left in a file: a line with its newline, or the start of an interrupted one. */
  datatype Piece = Whole(line: Bytes) | Torn(left: Bytes)

  function PieceBytes(p: Piece): Bytes {
    match p
    case Whole(line) => line + [NEWLINE]
    case Torn(left) => left
  }

  function Raw(pieces: seq<Piece>): Bytes {
    if pieces == [] then [] else PieceBytes(pieces[0]) + Raw(pieces[1..])
  }

  lemma Associative(a: Bytes, b: Bytes, c: Bytes)
    ensures a + (b + c) == (a + b) + c
  {
  }

  lemma {:induction false} RawAppend(a: seq<Piece>, b: seq<Piece>)
    ensures Raw(a + b) == Raw(a) + Raw(b)
  {
    if a == [] {
      assert a + b == b;
    } else {
      RawAppend(a[1..], b);
      calc {
        Raw(a + b);
        { assert (a + b)[0] == a[0] && (a + b)[1..] == a[1..] + b; }
        PieceBytes(a[0]) + Raw(a[1..] + b);
        PieceBytes(a[0]) + (Raw(a[1..]) + Raw(b));
        { Associative(PieceBytes(a[0]), Raw(a[1..]), Raw(b)); }
        PieceBytes(a[0]) + Raw(a[1..]) + Raw(b);
      }
    }
  }

  /** The pieces a completed append leaves. */
  function Wholes(lines: seq<Bytes>): seq<Piece> {
    if lines == [] then []
    else (if lines[0] == [] then [] else [Whole(lines[0])]) + Wholes(lines[1..])
  }

  lemma {:induction false} RawWholes(lines: seq<Bytes>)
    ensures Raw(Wholes(lines)) == Payload(lines)
  {
    if lines != [] {
      RawWholes(lines[1..]);
      if lines[0] != [] {
        RawAppend([Whole(lines[0])], Wholes(lines[1..]));
        assert Raw([Whole(lines[0])]) == lines[0] + [NEWLINE] + Raw([]);
      } else {
        assert Wholes(lines) == Wholes(lines[1..]);
      }
    }
  }

  /** The pieces left when only the first `k` bytes of the payload were written. */
  function Cut(lines: seq<Bytes>, k: nat): seq<Piece>
    requires k <= |Payload(lines)|
  {
    if lines == [] || k == 0 then []
    else if lines[0] == [] then Cut(lines[1..], k)
    else if k <= |lines[0]| then [Torn(lines[0][..k])]
    else [Whole(lines[0])] + Cut(lines[1..], k - |lines[0]| - 1)
  }

  lemma {:induction false} RawCut(lines: seq<Bytes>, k: nat)
    requires k <= |Payload(lines)|
    ensures Raw(Cut(lines, k)) == Payload(lines)[..k]
  {
    if lines == [] || k == 0 {
    } else if lines[0] == [] {
      RawCut(lines[1..], k);
    } else if k <= |lines[0]| {
      assert Cut(lines, k)[1..] == [];
      assert Payload(lines)[..k] == lines[0][..k];
    } else {
      var head, rest := lines[0] + [NEWLINE], k - |lines[0]| - 1;
      RawCut(lines[1..], rest);
      calc {
        Raw(Cut(lines, k));
        { assert Cut(lines, k)[1..] == Cut(lines[1..], rest); }
        head + Raw(Cut(lines[1..], rest));
        head + Payload(lines[1..])[..rest];
        (head + Payload(lines[1..]))[..k];
      }
    }
  }

  // ----- histories -----

  datatype Fate =
    | Closed(id: nat)   // still in the directory
    | Acked             // deleted by the consumer
    | Dropped           // deleted by the cap
    | Hidden            // renamed to a seventeen-digit name that no listing finds

  datatype Part = Part(pieces: seq<Piece>, fate: Fate, served: bool)

  datatype History = History(parts: seq<Part>, open: seq<Piece>)

  function Flatten(parts: seq<Part>): seq<Piece> {
    if parts == [] then [] else parts[0].pieces + Flatten(parts[1..])
  }

  /** Everything ever written, in order. */
  function Log(h: History): seq<Piece> {
    Flatten(h.parts) + h.open
  }

  /** Every part still closed is a file with exactly the part's bytes. */
  ghost predicate OnDisk(closed: map<nat, Bytes>, parts: seq<Part>) {
    forall i | 0 <= i < |parts| && parts[i].fate.Closed? ::
      parts[i].fate.id in closed && closed[parts[i].fate.id] == Raw(parts[i].pieces)
  }

  ghost predicate Holds(parts: seq<Part>, n: nat) {
    exists i :: 0 <= i < |parts| && parts[i].fate == Closed(n)
  }

  /** Every listed file is some part of the history. */
  ghost predicate Explained(closed: map<nat, Bytes>, parts: seq<Part>) {
    forall n | n in closed :: Holds(parts, n)
  }

  /** Sequence numbers follow the order in which the lines were appended. */
  ghost predicate Ordered(parts: seq<Part>) {
    forall i, j | 0 <= i < j < |parts| && parts[i].fate.Closed? && parts[j].fate.Closed? ::
      parts[i].fate.id < parts[j].fate.id
  }

  /** The next number is beyond every closed segment, so closing never overwrites a file. */
  ghost predicate Fresh(closed: map<nat, Bytes>, nextSeq: nat) {
    forall n | n in closed :: n < nextSeq && n < SegmentName.LIMIT
  }

  ghost predicate Accounts(s: State, h: History) {
    && s.current == Raw(h.open)
    && OnDisk(s.closed, h.parts)
    && Explained(s.closed, h.parts)
    && Ordered(h.parts)
    && Fresh(s.closed, s.nextSeq)
  }

  // ----- what each operation does to the history -----

  function Settle(p: Part, n: nat, fate: Fate): Part {
    if p.fate == Closed(n) then p.(fate := fate) else p
  }

  /** Give the segment numbered `n` its final fate. */
  function Mark(h: History, n: nat, fate: Fate): History {
    h.(parts := MarkParts(h.parts, n, fate))
  }

  function MarkParts(parts: seq<Part>, n: nat, fate: Fate): (r: seq<Part>)
    ensures |r| == |parts|
    ensures forall i | 0 <= i < |r| :: r[i] == Settle(parts[i], n, fate)
  {
    seq(|parts|, i requires 0 <= i < |parts| => Settle(parts[i], n, fate))
  }

  function Hand(p: Part, n: nat): Part {
    if p.fate == Closed(n) then p.(served := true) else p
  }

  /** Note that the segment numbered `n` was handed to the consumer. */
  function Deliver(h: History, n: nat): History {
    h.(parts := DeliverParts(h.parts, n))
  }

  function DeliverParts(parts: seq<Part>, n: nat): (r: seq<Part>)
    ensures |r| == |parts|
    ensures forall i | 0 <= i < |r| :: r[i] == Hand(parts[i], n)
  {
    seq(|parts|, i requires 0 <= i < |parts| => Hand(parts[i], n))
  }

  function Close(s: State, h: History): History {
    if s.current == [] then h
    else
      var fate := if s.nextSeq < SegmentName.LIMIT then Closed(s.nextSeq) else Hidden;
      History(h.parts + [Part(h.open, fate, false)], [])
  }

  function CloseIfFull(cfg: Config, s: State, h: History): History {
    if |s.current| >= cfg.segmentBytes then Close(s, h) else h
  }

  ghost function Shed(cfg: Config, s: State, h: History, limit: nat): History
    decreases limit
  {
    if limit == 0 || Total(s) <= cfg.maxBytes || s.closed.Keys == {} then h
    else Shed(cfg, DropOldest(s), Mark(h, Least(s.closed.Keys), Dropped), limit - 1)
  }

  function Record(h: History, pieces: seq<Piece>): History {
    h.(open := h.open + pieces)
  }

  /** A batch written in full, then any rotation, then at most `limit` of the cap's deletions. */
  ghost function Absorb(cfg: Config, s: State, h: History, lines: seq<Bytes>, limit: nat): History {
    var s1, h1 := Written(s, lines), Record(h, Wholes(lines));
    Shed(cfg, RotateIfFull(cfg, s1), CloseIfFull(cfg, s1, h1), limit)
  }

  ghost function Follow(cfg: Config, s: State, h: History, op: Op): History {
    match op
    case Append(lines) =>
      if lines == [] then h
      else Absorb(cfg, s, h, lines, |RotateIfFull(cfg, Written(s, lines)).closed.Keys|)
    case Next =>
      var s1 := RotateIfIdle(s);
      var h1 := if s.closed.Keys == {} then Close(s, h) else h;
      if s1.closed.Keys == {} then h1 else Deliver(h1, Least(s1.closed.Keys))
    case Ack(id) =>
      if SegmentName.Parse(id).Some? then Mark(h, SegmentName.Parse(id).value, Acked) else h
    case Reopen => h
    case Crash(lines, Writing(bytes)) => Record(h, Cut(lines, Clip(lines, bytes)))
    case Crash(lines, Capping(drops)) => if lines == [] then h else Absorb(cfg, s, h, lines, drops)
  }

  ghost function Trace(cfg: Config, ops: seq<Op>): History {
    if ops == [] then History([], [])
    else
      var before := ops[..|ops| - 1];
      Follow(cfg, Run(cfg, before), Trace(cfg, before), ops[|ops| - 1])
  }

  // ----- every operation keeps the account -----

  lemma HoldsAfter(parts: seq<Part>, after: seq<Part>, n: nat)
    requires Holds(parts, n) && |parts| <= |after|
    requires forall i | 0 <= i < |parts| && parts[i].fate == Closed(n) :: after[i].fate == Closed(n)
    ensures Holds(after, n)
  {
    var i :| 0 <= i < |parts| && parts[i].fate == Closed(n);
    assert after[i].fate == Closed(n);
  }

  lemma MarkOnDisk(closed: map<nat, Bytes>, parts: seq<Part>, n: nat, fate: Fate)
    requires OnDisk(closed, parts) && !fate.Closed?
    ensures OnDisk(closed - {n}, MarkParts(parts, n, fate))
  {
  }

  lemma MarkOrdered(parts: seq<Part>, n: nat, fate: Fate)
    requires Ordered(parts) && !fate.Closed?
    ensures Ordered(MarkParts(parts, n, fate))
  {
  }

  lemma MarkAccounts(s: State, h: History, n: nat, fate: Fate)
    requires Accounts(s, h) && !fate.Closed?
    ensures Accounts(s.(closed := s.closed - {n}), Mark(h, n, fate))
  {
    MarkOnDisk(s.closed, h.parts, n, fate);
    MarkOrdered(h.parts, n, fate);
    forall m | m in s.closed - {n}
      ensures Holds(Mark(h, n, fate).parts, m)
    {
      HoldsAfter(h.parts, Mark(h, n, fate).parts, m);
    }
  }

  lemma DeliverAccounts(s: State, h: History, n: nat)
    requires Accounts(s, h)
    ensures Accounts(s, Deliver(h, n))
  {
    var g := Deliver(h, n);
    forall m | m in s.closed
      ensures Holds(g.parts, m)
    {
      HoldsAfter(h.parts, g.parts, m);
    }
  }

  lemma CloseOrdered(closed: map<nat, Bytes>, parts: seq<Part>, p: Part)
    requires OnDisk(closed, parts) && Ordered(parts)
    requires p.fate.Closed? ==> Fresh(closed, p.fate.id)
    ensures Ordered(parts + [p])
  {
  }

  lemma CloseExplained(closed: map<nat, Bytes>, parts: seq<Part>, p: Part, b: Bytes)
    requires Explained(closed, parts) && p.fate.Closed?
    ensures Explained(closed[p.fate.id := b], parts + [p])
  {
    forall m | m in closed[p.fate.id := b]
      ensures Holds(parts + [p], m)
    {
      if m == p.fate.id {
        assert (parts + [p])[|parts|].fate == Closed(m);
      } else {
        HoldsAfter(parts, parts + [p], m);
      }
    }
  }

  lemma CloseAccounts(s: State, h: History)
    requires Accounts(s, h)
    ensures Accounts(Rotate(s), Close(s, h))
  {
    if s.current != [] {
      var p := Close(s, h).parts[|h.parts|];
      CloseOrdered(s.closed, h.parts, p);
      if s.nextSeq < SegmentName.LIMIT {
        CloseExplained(s.closed, h.parts, p, s.current);
      } else {
        forall m | m in s.closed
          ensures Holds(h.parts + [p], m)
        {
          HoldsAfter(h.parts, h.parts + [p], m);
        }
      }
    }
  }

  lemma DropAccounts(s: State, h: History)
    requires Accounts(s, h) && s.closed.Keys != {}
    ensures Accounts(DropOldest(s), Mark(h, Least(s.closed.Keys), Dropped))
  {
    MarkAccounts(s, h, Least(s.closed.Keys), Dropped);
  }

  ghost predicate KeptByDrop(inv: (State, History) -> bool) {
    forall s, h :: inv(s, h) && s.closed.Keys != {} ==> inv(DropOldest(s), Mark(h, Least(s.closed.Keys), Dropped))
  }

  /** Whatever one deletion keeps, the cap loop keeps, wherever it stops. */
  lemma {:induction false} ShedKeeps(inv: (State, History) -> bool, cfg: Config, s: State, h: History, limit: nat)
    requires KeptByDrop(inv) && inv(s, h)
    ensures inv(DropUpTo(cfg, s, limit), Shed(cfg, s, h, limit))
    decreases limit
  {
    if limit > 0 && Total(s) > cfg.maxBytes && s.closed.Keys != {} {
      ShedKeeps(inv, cfg, DropOldest(s), Mark(h, Least(s.closed.Keys), Dropped), limit - 1);
    }
  }

  lemma {:induction false} AbsorbAccounts(cfg: Config, s: State, h: History, lines: seq<Bytes>, limit: nat)
    requires Accounts(s, h)
    ensures Accounts(DropUpTo(cfg, RotateIfFull(cfg, Written(s, lines)), limit), Absorb(cfg, s, h, lines, limit))
  {
    var s1, h1 := Written(s, lines), Record(h, Wholes(lines));
    RawAppend(h.open, Wholes(lines));
    RawWholes(lines);
    assert Accounts(s1, h1);
    CloseAccounts(s1, h1);
    forall t, g | Accounts(t, g) && t.closed.Keys != {}
      ensures Accounts(DropOldest(t), Mark(g, Least(t.closed.Keys), Dropped))
    {
      DropAccounts(t, g);
    }
    ShedKeeps(Accounts, cfg, RotateIfFull(cfg, s1), CloseIfFull(cfg, s1, h1), limit);
  }

  lemma ReopenAccounts(s: State, h: History)
    requires Accounts(s, h)
    ensures Accounts(AfterReopen(s), h)
  {
  }

  lemma StepAccounts(cfg: Config, s: State, h: History, op: Op)
    requires Accounts(s, h)
    ensures Accounts(Step(cfg, s, op), Follow(cfg, s, h, op))
  {
    match op
    case Append(lines) =>
      AbsorbAccounts(cfg, s, h, lines, |RotateIfFull(cfg, Written(s, lines)).closed.Keys|);
    case Next =>
      CloseAccounts(s, h);
      var s1 := RotateIfIdle(s);
      var h1 := if s.closed.Keys == {} then Close(s, h) else h;
      if s1.closed.Keys != {} { DeliverAccounts(s1, h1, Least(s1.closed.Keys)); }
    case Ack(id) =>
      if SegmentName.Parse(id).Some? { MarkAccounts(s, h, SegmentName.Parse(id).value, Acked); }
    case Reopen => ReopenAccounts(s, h);
    case Crash(lines, Writing(bytes)) =>
      var k := Clip(lines, bytes);
      RawAppend(h.open, Cut(lines, k));
      RawCut(lines, k);
      ReopenAccounts(s.(current := s.current + Payload(lines)[..k]), Record(h, Cut(lines, k)));
    case Crash(lines, Capping(drops)) =>
      if lines == [] {
        ReopenAccounts(s, h);
      } else {
        AbsorbAccounts(cfg, s, h, lines, drops);
        ReopenAccounts(DropUpTo(cfg, RotateIfFull(cfg, Written(s, lines)), drops), Absorb(cfg, s, h, lines, drops));
      }
  }

  // ----- nothing is lost, invented or reordered -----

  /** What a single operation adds to the log; it does not depend on the state. */
  function Logged(op: Op): seq<Piece> {
    match op
    case Append(lines) => Wholes(lines)
    case Crash(lines, Writing(bytes)) => Cut(lines, Clip(lines, bytes))
    case Crash(lines, Capping(_)) => Wholes(lines)
    case _ => []
  }

  function LoggedBy(ops: seq<Op>): seq<Piece> {
    if ops == [] then [] else LoggedBy(ops[..|ops| - 1]) + Logged(ops[|ops| - 1])
  }

  lemma {:induction false} FlattenSame(a: seq<Part>, b: seq<Part>)
    requires |a| == |b| && forall i | 0 <= i < |a| :: a[i].pieces == b[i].pieces
    ensures Flatten(a) == Flatten(b)
  {
    if a != [] { FlattenSame(a[1..], b[1..]); }
  }

  lemma {:induction false} FlattenSnoc(parts: seq<Part>, p: Part)
    ensures Flatten(parts + [p]) == Flatten(parts) + p.pieces
  {
    if parts == [] {
      assert (parts + [p])[1..] == [];
    } else {
      FlattenSnoc(parts[1..], p);
      assert (parts + [p])[1..] == parts[1..] + [p];
    }
  }

  lemma CloseLog(s: State, h: History)
    ensures Log(Close(s, h)) == Log(h)
  {
    if s.current != [] {
      FlattenSnoc(h.parts, Close(s, h).parts[|h.parts|]);
    }
  }

  lemma MarkLog(h: History, n: nat, fate: Fate)
    ensures Log(Mark(h, n, fate)) == Log(h)
  {
    FlattenSame(h.parts, Mark(h, n, fate).parts);
  }

  lemma DeliverLog(h: History, n: nat)
    ensures Log(Deliver(h, n)) == Log(h)
  {
    FlattenSame(h.parts, Deliver(h, n).parts);
  }

  lemma {:induction false} AbsorbLog(cfg: Config, s: State, h: History, lines: seq<Bytes>, limit: nat)
    ensures Log(Absorb(cfg, s, h, lines, limit)) == Log(h) + Wholes(lines)
  {
    var s1, h1 := Written(s, lines), Record(h, Wholes(lines));
    var log := Log(h) + Wholes(lines);
    assert Log(h1) == log;
    CloseLog(s1, h1);
    forall g, n | Log(g) == log
      ensures Log(Mark(g, n, Dropped)) == log
    {
      MarkLog(g, n, Dropped);
    }
    ShedKeeps((t, g) => Log(g) == log, cfg, RotateIfFull(cfg, s1), CloseIfFull(cfg, s1, h1), limit);
  }

  lemma FollowLog(cfg: Config, s: State, h: History, op: Op)
    ensures Log(Follow(cfg, s, h, op)) == Log(h) + Logged(op)
  {
    match op
    case Append(lines) =>
      if lines != [] { AbsorbLog(cfg, s, h, lines, |RotateIfFull(cfg, Written(s, lines)).closed.Keys|); }
    case Next =>
      CloseLog(s, h);
      var h1 := if s.closed.Keys == {} then Close(s, h) else h;
      if RotateIfIdle(s).closed.Keys != {} { DeliverLog(h1, Least(RotateIfIdle(s).closed.Keys)); }
    case Ack(id) =>
      if SegmentName.Parse(id).Some? { MarkLog(h, SegmentName.Parse(id).value, Acked); }
    case Reopen =>
    case Crash(lines, Writing(bytes)) =>
    case Crash(lines, Capping(drops)) => if lines != [] { AbsorbLog(cfg, s, h, lines, drops); }
  }

  /**
   Conservation over every run, crashes included: the history holds exactly what the operations
   wrote, in order, and the directory is exactly the parts not yet acknowledged, dropped or hidden.
   */
  lemma {:induction false} Conservation(cfg: Config, ops: seq<Op>)
    ensures Accounts(Run(cfg, ops), Trace(cfg, ops))
    ensures Log(Trace(cfg, ops)) == LoggedBy(ops)
  {
    if ops != [] {
      var before := ops[..|ops| - 1];
      Conservation(cfg, before);
      StepAccounts(cfg, Run(cfg, before), Trace(cfg, before), ops[|ops| - 1]);
      FollowLog(cfg, Run(cfg, before), Trace(cfg, before), ops[|ops| - 1]);
    }
  }
}

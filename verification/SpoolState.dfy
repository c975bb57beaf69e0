/**
 One module's spool as a value: the listed segment files by sequence number, the open file,
 and the two counters `Inner` keeps in memory. Every operation is a function on that value;
 `SpoolDirectory.Spool` is the class that performs them on a directory of named files.
 */
module SpoolState {
  import opened Bytes
  import opened Wrappers
  import SegmentName

  datatype Config = Config(segmentBytes: nat, maxBytes: nat)

  datatype State = State(closed: map<nat, Bytes>, current: Bytes, nextSeq: nat, dropped: nat)

  datatype Batch = Batch(id: nat, text: Bytes)

  // ----- sets of sequence numbers and byte totals -----

  ghost function Least(s: set<nat>): (n: nat)
    requires s != {}
    ensures n in s && forall m | m in s :: n <= m
  {
    var x :| x in s;
    if s == {x} then x
    else
      assert s == {x} + (s - {x});
      var y := Least(s - {x});
      if x < y then x else y
  }

  lemma {:induction false} LeastIs(s: set<nat>, n: nat)
    requires n in s && forall m | m in s :: n <= m
    ensures Least(s) == n
  {
    assert Least(s) in s;
  }

  ghost function Greatest(s: set<nat>): (n: nat)
    ensures s == {} ==> n == 0
    ensures s != {} ==> n in s && forall m | m in s :: m <= n
  {
    if s == {} then 0
    else
      var x :| x in s;
      var y := Greatest(s - {x});
      assert s == {x} + (s - {x});
      if s == {x} || y < x then x else y
  }

  /** Bytes held by the closed segments. */
  ghost function Sum(m: map<nat, Bytes>): nat
    decreases m.Keys
  {
    if m.Keys == {} then 0 else
    var n := Least(m.Keys);
    |m[n]| + Sum(m - {n})
  }

  /** The byte total does not depend on the order in which files are listed. */
  lemma {:induction false} SumRemove(m: map<nat, Bytes>, k: nat)
    requires k in m
    ensures Sum(m) == |m[k]| + Sum(m - {k})
    decreases m.Keys
  {
    var n := Least(m.Keys);
    if k != n {
      SumRemove(m - {n}, k);
      LeastIs((m - {k}).Keys, n);
      assert m - {k} - {n} == m - {n} - {k};
    }
  }

  lemma SumInsert(m: map<nat, Bytes>, k: nat, b: Bytes)
    requires k !in m
    ensures Sum(m[k := b]) == Sum(m) + |b|
  {
    SumRemove(m[k := b], k);
    assert m[k := b] - {k} == m;
  }

  ghost function Total(s: State): nat {
    |s.current| + Sum(s.closed)
  }

  // ----- the operations -----

  /** The bytes `append` writes for a batch: empty lines are skipped. */
  function Payload(lines: seq<Bytes>): Bytes {
    if lines == [] then []
    else (if lines[0] == [] then [] else lines[0] + [NEWLINE]) + Payload(lines[1..])
  }

  /** The number `append` returns. */
  function CountNonEmpty(lines: seq<Bytes>): nat {
    if lines == [] then 0 else (if lines[0] == [] then 0 else 1) + CountNonEmpty(lines[1..])
  }

  /** Close the open file. A number that needs seventeen digits names a file no listing finds. */
  function Rotate(s: State): State {
    if s.current == [] then s
    else if s.nextSeq < SegmentName.LIMIT then
      s.(closed := s.closed[s.nextSeq := s.current], current := [], nextSeq := s.nextSeq + 1)
    else
      s.(current := [], nextSeq := s.nextSeq + 1)
  }

  function RotateIfFull(cfg: Config, s: State): State {
    if |s.current| >= cfg.segmentBytes then Rotate(s) else s
  }

  ghost function DropOldest(s: State): State
    requires s.closed.Keys != {}
  {
    s.(closed := s.closed - {Least(s.closed.Keys)}, dropped := s.dropped + 1)
  }

  /** The cap loop stopped after at most `limit` deletions. */
  ghost function DropUpTo(cfg: Config, s: State, limit: nat): State
    decreases limit
  {
    if limit == 0 || Total(s) <= cfg.maxBytes || s.closed.Keys == {} then s
    else DropUpTo(cfg, DropOldest(s), limit - 1)
  }

  /** The whole cap loop: it cannot delete more segments than there are. */
  ghost function EnforceCap(cfg: Config, s: State): State {
    DropUpTo(cfg, s, |s.closed.Keys|)
  }

  lemma EnforceCapStep(cfg: Config, s: State)
    requires Total(s) > cfg.maxBytes && s.closed.Keys != {}
    ensures EnforceCap(cfg, s) == EnforceCap(cfg, DropOldest(s))
  {
    var n := Least(s.closed.Keys);
    assert DropOldest(s).closed.Keys == s.closed.Keys - {n};
  }

  function Written(s: State, lines: seq<Bytes>): State {
    s.(current := s.current + Payload(lines))
  }

  ghost function AfterAppend(cfg: Config, s: State, lines: seq<Bytes>): State {
    if lines == [] then s
    else EnforceCap(cfg, RotateIfFull(cfg, Written(s, lines)))
  }

  /** The text without a torn trailing line: the longest prefix that is empty or ends a line. */
  function Trim(text: Bytes): Bytes {
    if text == [] || text[|text| - 1] == NEWLINE then text else Trim(text[..|text| - 1])
  }

  function RotateIfIdle(s: State): State {
    if s.closed.Keys == {} then Rotate(s) else s
  }

  ghost function Served(s: State): Option<Batch> {
    if s.closed.Keys == {} then None
    else Some(Batch(Least(s.closed.Keys), Trim(s.closed[Least(s.closed.Keys)])))
  }

  function AfterAck(s: State, id: string): State {
    match SegmentName.Parse(id)
    case None => s
    case Some(n) => s.(closed := s.closed - {n})
  }

  predicate AckResult(s: State, id: string) {
    SegmentName.Parse(id).Some? && SegmentName.Parse(id).value in s.closed
  }

  /** What `open` rebuilds from the directory alone. */
  ghost function Open(closed: map<nat, Bytes>, current: Bytes): State {
    State(closed, current, Greatest(closed.Keys) + 1, 0)
  }

  ghost function AfterReopen(s: State): State {
    Open(s.closed, s.current)
  }

  /**
   Where an append can stop: after some bytes of the payload reached the open file, or after the
   payload and any rotation, with some of the cap's deletions done.
   */
  datatype CrashPoint = Writing(bytes: nat) | Capping(drops: nat)

  function Clip(lines: seq<Bytes>, bytes: nat): (k: nat)
    ensures k <= |Payload(lines)|
  {
    if bytes <= |Payload(lines)| then bytes else |Payload(lines)|
  }

  ghost function AfterCrash(cfg: Config, s: State, lines: seq<Bytes>, at: CrashPoint): State {
    match at
    case Writing(bytes) => AfterReopen(s.(current := s.current + Payload(lines)[..Clip(lines, bytes)]))
    case Capping(drops) =>
      if lines == [] then AfterReopen(s)
      else AfterReopen(DropUpTo(cfg, RotateIfFull(cfg, Written(s, lines)), drops))
  }

  // ----- runs -----

  datatype Op =
    | Append(lines: seq<Bytes>)
    | Next
    | Ack(id: string)
    | Reopen
    | Crash(lines: seq<Bytes>, at: CrashPoint)

  ghost function Step(cfg: Config, s: State, op: Op): State {
    match op
    case Append(lines) => AfterAppend(cfg, s, lines)
    case Next => RotateIfIdle(s)
    case Ack(id) => AfterAck(s, id)
    case Reopen => AfterReopen(s)
    case Crash(lines, at) => AfterCrash(cfg, s, lines, at)
  }

  /** The batch a step hands to the consumer, if any. */
  ghost function Output(s: State, op: Op): Option<Batch> {
    if op.Next? then Served(RotateIfIdle(s)) else None
  }

  ghost const EMPTY := Open(map[], [])

  ghost function Run(cfg: Config, ops: seq<Op>): State {
    if ops == [] then EMPTY
    else Step(cfg, Run(cfg, ops[..|ops| - 1]), ops[|ops| - 1])
  }

  /** Every batch handed out by a run, in order. */
  ghost function Batches(cfg: Config, ops: seq<Op>): seq<Batch> {
    if ops == [] then []
    else
      var before := ops[..|ops| - 1];
      var out := Output(Run(cfg, before), ops[|ops| - 1]);
      Batches(cfg, before) + (if out.Some? then [out.value] else [])
  }
}

/** What the byte cap guarantees, from every starting state. */
module SpoolCap {
  import opened Bytes
  import opened SpoolState
  import SegmentName
  import SpoolHistory

  /** The closed segments numbered `n` and later. */
  ghost function From(m: map<nat, Bytes>, n: nat): map<nat, Bytes> {
    map k | k in m && n <= k :: m[k]
  }

  lemma RemoveKey(m: map<nat, Bytes>, k: nat)
    requires k in m
    ensures (m - {k}).Keys == m.Keys - {k}
    ensures |(m - {k}).Keys| == |m.Keys| - 1
  {
    assert (m - {k}).Keys == m.Keys - {k};
  }

  /** What is left after deleting a run of the oldest segments, one counter tick each, and nothing else. */
  ghost predicate OldestGone(s: State, r: State, limit: nat) {
    && r.current == s.current && r.nextSeq == s.nextSeq
    && r.closed.Keys <= s.closed.Keys
    && (forall n | n in r.closed :: r.closed[n] == s.closed[n])
    && (forall gone, kept | gone in s.closed.Keys - r.closed.Keys && kept in r.closed :: gone < kept)
    && r.dropped - s.dropped == |s.closed.Keys| - |r.closed.Keys| <= limit
  }

  lemma OneMoreGone(s: State, r: State, limit: nat)
    requires s.closed.Keys != {} && OldestGone(DropOldest(s), r, limit)
    ensures OldestGone(s, r, limit + 1)
  {
    var n, t := Least(s.closed.Keys), DropOldest(s);
    RemoveKey(s.closed, n);
    forall gone, kept | gone in s.closed.Keys - r.closed.Keys && kept in r.closed
      ensures gone < kept
    {
      if gone != n { assert gone in t.closed.Keys - r.closed.Keys; }
    }
  }

  lemma {:induction false} DropsOldestFirst(cfg: Config, s: State, limit: nat)
    ensures OldestGone(s, DropUpTo(cfg, s, limit), limit)
    decreases limit
  {
    if limit > 0 && Total(s) > cfg.maxBytes && s.closed.Keys != {} {
      DropsOldestFirst(cfg, DropOldest(s), limit - 1);
      OneMoreGone(s, DropUpTo(cfg, s, limit), limit - 1);
    }
  }

  /** A deletion happens only while everything from the deleted segment on still exceeds the cap. */
  lemma {:induction false} DropsOnlyOverCap(cfg: Config, s: State, limit: nat)
    ensures var r := DropUpTo(cfg, s, limit);
            forall n | n in s.closed.Keys - r.closed.Keys ::
              Total(s.(closed := From(s.closed, n))) > cfg.maxBytes
    decreases limit
  {
    var r := DropUpTo(cfg, s, limit);
    if limit == 0 || Total(s) <= cfg.maxBytes || s.closed.Keys == {} {
    } else {
      var t := DropOldest(s);
      var l := Least(s.closed.Keys);
      DropsOnlyOverCap(cfg, t, limit - 1);
      forall n | n in s.closed.Keys - r.closed.Keys
        ensures Total(s.(closed := From(s.closed, n))) > cfg.maxBytes
      {
        if n == l {
          assert From(s.closed, n) == s.closed;
        } else {
          assert n in t.closed.Keys - r.closed.Keys;
          assert From(s.closed, n) == From(t.closed, n);
        }
      }
    }
  }

  /** The loop ends under the cap, or with no closed segment left, or because it ran out of deletions. */
  lemma {:induction false} DropsUntilUnderCap(cfg: Config, s: State, limit: nat)
    ensures var r := DropUpTo(cfg, s, limit);
            Total(r) <= cfg.maxBytes || r.closed.Keys == {} || r.dropped == s.dropped + limit
    decreases limit
  {
    if limit > 0 && Total(s) > cfg.maxBytes && s.closed.Keys != {} {
      DropsUntilUnderCap(cfg, DropOldest(s), limit - 1);
    }
  }

  /**
   `enforce_cap` removes the shortest prefix of the oldest closed segments that reaches the cap
   or leaves none, and never touches the open file.
   */
  lemma EnforceCapShortestPrefix(cfg: Config, s: State)
    ensures var r := EnforceCap(cfg, s);
            && r.current == s.current && r.nextSeq == s.nextSeq
            && r.closed.Keys <= s.closed.Keys
            && (forall n | n in r.closed :: r.closed[n] == s.closed[n])
            && (forall gone, kept | gone in s.closed.Keys - r.closed.Keys && kept in r.closed :: gone < kept)
            && (Total(r) <= cfg.maxBytes || r.closed.Keys == {})
            && (forall n | n in s.closed.Keys - r.closed.Keys ::
                  Total(s.(closed := From(s.closed, n))) > cfg.maxBytes)
            && r.dropped - s.dropped == |s.closed.Keys| - |r.closed.Keys|
  {
    DropsOldestFirst(cfg, s, |s.closed.Keys|);
    DropsOnlyOverCap(cfg, s, |s.closed.Keys|);
    DropsUntilUnderCap(cfg, s, |s.closed.Keys|);
  }

  /** With a workable segment size, an append of any non-empty batch, from any state, ends under the cap. */
  lemma AppendMeetsCap(cfg: Config, s: State, lines: seq<Bytes>)
    requires lines != [] && cfg.segmentBytes <= cfg.maxBytes + 1
    ensures Total(AfterAppend(cfg, s, lines)) <= cfg.maxBytes
  {
    var t := RotateIfFull(cfg, Written(s, lines));
    EnforceCapShortestPrefix(cfg, t);
  }

  /** The cap holds after every such append exactly when the segment size is at most one more than it. */
  lemma CapHoldsExactlyWhen(cfg: Config)
    ensures (forall s, lines | lines != [] :: Total(AfterAppend(cfg, s, lines)) <= cfg.maxBytes)
            <==> cfg.segmentBytes <= cfg.maxBytes + 1
  {
    if cfg.segmentBytes <= cfg.maxBytes + 1 {
      forall s, lines | lines != []
        ensures Total(AfterAppend(cfg, s, lines)) <= cfg.maxBytes
      {
        AppendMeetsCap(cfg, s, lines);
      }
    } else {
      var s := State(map[], seq(cfg.maxBytes + 1, i => NEWLINE), 1, 0);
      assert Payload([[]]) == [];
      assert Written(s, [[]]) == s;
      assert Total(AfterAppend(cfg, s, [[]])) > cfg.maxBytes;
    }
  }

  /** The validated configuration (twice the segment size fits the cap) is well inside the condition. */
  lemma ValidatedConfigMeetsCap(cfg: Config, s: State, lines: seq<Bytes>)
    requires lines != [] && cfg.segmentBytes * 2 <= cfg.maxBytes
    ensures Total(AfterAppend(cfg, s, lines)) <= cfg.maxBytes
  {
    AppendMeetsCap(cfg, s, lines);
  }

  // ----- over runs -----

  lemma RotateTotal(s: State)
    ensures Total(Rotate(s)) <= Total(s) || s.nextSeq in s.closed
  {
    if s.current != [] && s.nextSeq < SegmentName.LIMIT && s.nextSeq !in s.closed {
      SumInsert(s.closed, s.nextSeq, s.current);
    }
  }

  lemma {:induction false} SumWithout(m: map<nat, Bytes>, n: nat)
    ensures Sum(m - {n}) <= Sum(m)
  {
    if n in m {
      SumRemove(m, n);
    } else {
      assert m - {n} == m;
    }
  }

  lemma {:induction false} DropsLower(cfg: Config, s: State, limit: nat)
    ensures Total(DropUpTo(cfg, s, limit)) <= Total(s)
    decreases limit
  {
    if limit > 0 && Total(s) > cfg.maxBytes && s.closed.Keys != {} {
      SumWithout(s.closed, Least(s.closed.Keys));
      DropsLower(cfg, DropOldest(s), limit - 1);
    }
  }

  /** An append that a crash cuts short adds at most its payload, wherever it stops. */
  lemma {:induction false} CrashAddsAtMost(cfg: Config, s: State, lines: seq<Bytes>, at: CrashPoint)
    requires s.nextSeq !in s.closed
    ensures Total(AfterCrash(cfg, s, lines, at)) <= Total(s) + |Payload(lines)|
  {
    if at.Capping? && lines != [] {
      var t := Written(s, lines);
      RotateTotal(t);
      DropsLower(cfg, RotateIfFull(cfg, t), at.drops);
    }
  }

  /** Serving, acknowledging, reopening and appending keep the cap; what a crash can add is bounded above. */
  lemma StepKeepsCap(cfg: Config, s: State, op: Op)
    requires cfg.segmentBytes <= cfg.maxBytes + 1 && !op.Crash? && s.nextSeq !in s.closed
    requires Total(s) <= cfg.maxBytes
    ensures Total(Step(cfg, s, op)) <= cfg.maxBytes
  {
    match op
    case Append(lines) => if lines != [] { AppendMeetsCap(cfg, s, lines); }
    case Next => RotateTotal(s);
    case Ack(id) => if SegmentName.Parse(id).Some? { SumWithout(s.closed, SegmentName.Parse(id).value); }
    case Reopen =>
  }

  /** The payloads of the appends cut short by a crash since the last append that was completed. */
  function CutShort(ops: seq<Op>): nat {
    if ops == [] then 0
    else
      var before := CutShort(ops[..|ops| - 1]);
      match ops[|ops| - 1]
      case Append(lines) => if lines == [] then before else 0
      case Crash(lines, _) => before + |Payload(lines)|
      case _ => before
  }

  lemma StepAddsAtMost(cfg: Config, s: State, op: Op)
    requires !op.Append? && s.nextSeq !in s.closed
    ensures Total(Step(cfg, s, op)) <= Total(s) + (if op.Crash? then |Payload(op.lines)| else 0)
  {
    match op
    case Next => RotateTotal(s);
    case Ack(id) => if SegmentName.Parse(id).Some? { SumWithout(s.closed, SegmentName.Parse(id).value); }
    case Reopen =>
    case Crash(lines, at) => CrashAddsAtMost(cfg, s, lines, at);
  }

  /**
   In every run, crashes included, the pending bytes exceed the cap by at most the payloads of the
   appends cut short since the last one that was completed: the next append brings them back under.
   */
  lemma {:induction false} RunNearCap(cfg: Config, ops: seq<Op>)
    requires cfg.segmentBytes <= cfg.maxBytes + 1
    ensures Total(Run(cfg, ops)) <= cfg.maxBytes + CutShort(ops)
  {
    if ops != [] {
      var before, op := ops[..|ops| - 1], ops[|ops| - 1];
      RunNearCap(cfg, before);
      SpoolHistory.Conservation(cfg, before);
      if op.Append? {
        if op.lines != [] { AppendMeetsCap(cfg, Run(cfg, before), op.lines); }
      } else {
        StepAddsAtMost(cfg, Run(cfg, before), op);
      }
    }
  }

  /** In every run without a crash the pending bytes are within the cap after each operation. */
  lemma {:induction false} RunMeetsCap(cfg: Config, ops: seq<Op>)
    requires cfg.segmentBytes <= cfg.maxBytes + 1 && forall i | 0 <= i < |ops| :: !ops[i].Crash?
    ensures Total(Run(cfg, ops)) <= cfg.maxBytes
  {
    if ops != [] {
      var before := ops[..|ops| - 1];
      RunMeetsCap(cfg, before);
      SpoolHistory.Conservation(cfg, before);
      StepKeepsCap(cfg, Run(cfg, before), ops[|ops| - 1]);
    }
  }
}

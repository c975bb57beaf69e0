/**
 What is handed out comes from the log, in its order: files only grow while open, and never change
 once closed.
 */
module SpoolServed {
  import opened Bytes
  import opened SpoolHistory
  import opened SpoolState
  import opened Wrappers
  import SpoolFraming

  // ----- how histories grow -----

  /** The pieces of the part numbered `k`, or of the open file if it has not been closed yet. */
  function FileAt(h: History, k: nat): seq<Piece>
    requires k <= |h.parts|
  {
    if k < |h.parts| then h.parts[k].pieces else h.open
  }

  /**
   Closed parts keep their pieces, their marks and, while they are listed, their numbers; the open
   file is only added to, also in the step that closes it.
   */
  ghost predicate Extends(h: History, g: History) {
    && |h.parts| <= |g.parts|
    && (forall i | 0 <= i < |h.parts| ::
          g.parts[i].pieces == h.parts[i].pieces && (h.parts[i].served ==> g.parts[i].served))
    && (forall i | 0 <= i < |h.parts| && g.parts[i].fate.Closed? :: g.parts[i].fate == h.parts[i].fate)
    && h.open <= FileAt(g, |h.parts|)
  }

  lemma ExtendsTwice(h: History, g: History, f: History)
    requires Extends(h, g) && Extends(g, f)
    ensures Extends(h, f)
  {
  }

  lemma ExtendsOnDrop(h: History, g: History, n: nat, fate: Fate)
    requires Extends(h, g) && !fate.Closed?
    ensures Extends(h, Mark(g, n, fate))
  {
  }

  lemma CloseExtends(s: State, h: History)
    ensures Extends(h, Close(s, h))
  {
  }

  lemma {:induction false} AbsorbExtends(cfg: Config, s: State, h: History, lines: seq<Bytes>, limit: nat)
    ensures Extends(Record(h, Wholes(lines)), Absorb(cfg, s, h, lines, limit))
  {
    var s1, h1 := Written(s, lines), Record(h, Wholes(lines));
    var inv := (t: State, g: History) => Extends(h1, g);
    forall t, g | inv(t, g) && t.closed.Keys != {}
      ensures inv(DropOldest(t), Mark(g, Least(t.closed.Keys), Dropped))
    {
      ExtendsOnDrop(h1, g, Least(t.closed.Keys), Dropped);
    }
    CloseExtends(s1, h1);
    ShedKeeps(inv, cfg, RotateIfFull(cfg, s1), CloseIfFull(cfg, s1, h1), limit);
  }

  /** One operation adds its pieces to the open file and changes no other. */
  lemma FollowExtends(cfg: Config, s: State, h: History, op: Op)
    ensures Extends(Record(h, Logged(op)), Follow(cfg, s, h, op))
  {
    match op
    case Append(lines) =>
      if lines != [] { AbsorbExtends(cfg, s, h, lines, |RotateIfFull(cfg, Written(s, lines)).closed.Keys|); }
    case Next => CloseExtends(s, h);
    case Ack(id) =>
    case Reopen =>
    case Crash(lines, Writing(_)) =>
    case Crash(lines, Capping(drops)) => if lines != [] { AbsorbExtends(cfg, s, h, lines, drops); }
  }

  lemma RecordExtends(h: History, pieces: seq<Piece>)
    ensures Extends(h, Record(h, pieces))
  {
  }

  lemma {:induction false} OneMore(cfg: Config, ops: seq<Op>, op: Op)
    ensures Extends(Record(Trace(cfg, ops), Logged(op)), Trace(cfg, ops + [op]))
  {
    assert (ops + [op])[..|ops|] == ops;
    FollowExtends(cfg, Run(cfg, ops), Trace(cfg, ops), op);
  }

  /** What an open file holds later: what it held, what was added, and the rest. */
  lemma LaterFile(h: History, pieces: seq<Piece>, g: History) returns (later: seq<Piece>)
    requires Extends(Record(h, pieces), g)
    ensures FileAt(g, |h.parts|) == h.open + pieces + later
  {
    later := FileAt(g, |h.parts|)[|h.open + pieces|..];
  }

  lemma {:induction false} TraceExtends(cfg: Config, ops: seq<Op>, more: seq<Op>)
    ensures Extends(Trace(cfg, ops), Trace(cfg, ops + more))
    decreases |more|
  {
    if more == [] {
      assert ops + more == ops;
    } else {
      var n := |more| - 1;
      var all := ops + more[..n];
      TraceExtends(cfg, ops, more[..n]);
      assert ops + more == all + [more[n]];
      OneMore(cfg, all, more[n]);
      RecordExtends(Trace(cfg, all), Logged(more[n]));
      ExtendsTwice(Trace(cfg, all), Record(Trace(cfg, all), Logged(more[n])), Trace(cfg, ops + more));
      ExtendsTwice(Trace(cfg, ops), Trace(cfg, all), Trace(cfg, ops + more));
    }
  }

  // ----- every batch is a part of the log -----

  /** The oldest part still listed. */
  ghost function FirstClosed(parts: seq<Part>): (i: nat)
    requires exists i :: 0 <= i < |parts| && parts[i].fate.Closed?
    ensures i < |parts| && parts[i].fate.Closed? && forall k | 0 <= k < i :: !parts[k].fate.Closed?
  {
    if parts[0].fate.Closed? then 0
    else
      var k :| 0 <= k < |parts| && parts[k].fate.Closed?;
      assert parts[1..][k - 1].fate.Closed?;
      1 + FirstClosed(parts[1..])
  }

  lemma OldestIsFirst(s: State, h: History)
    requires Accounts(s, h) && s.closed.Keys != {}
    ensures exists i :: 0 <= i < |h.parts| && h.parts[i].fate.Closed?
    ensures Served(s).value.text == Trim(Raw(h.parts[FirstClosed(h.parts)].pieces))
  {
    var n := Least(s.closed.Keys);
    assert Holds(h.parts, n);
    var i :| 0 <= i < |h.parts| && h.parts[i].fate == Closed(n);
    var k := FirstClosed(h.parts);
    assert h.parts[k].fate.id in s.closed.Keys;
    assert k == i;
  }

  /** Which part of the log each batch of a run was. */
  ghost function Positions(cfg: Config, ops: seq<Op>): seq<nat> {
    if ops == [] then []
    else
      var before, parts := ops[..|ops| - 1], Trace(cfg, ops).parts;
      Positions(cfg, before) +
      (if Output(Run(cfg, before), ops[|ops| - 1]).Some? && exists i :: 0 <= i < |parts| && parts[i].fate.Closed?
       then [FirstClosed(parts)] else [])
  }

  /** The batches are these parts, without their torn tails, in the order of the log. */
  ghost predicate Along(at: seq<nat>, batches: seq<Batch>, parts: seq<Part>) {
    && |at| == |batches|
    && (forall j | 0 <= j < |at| :: at[j] < |parts| && batches[j].text == Trim(Raw(parts[at[j]].pieces)))
    && (forall i, j | 0 <= i < j < |at| :: at[i] <= at[j])
  }

  /** No part before one already handed out is still listed. */
  ghost predicate Passed(at: seq<nat>, parts: seq<Part>) {
    forall i, j | 0 <= i < |parts| && parts[i].fate.Closed? && 0 <= j < |at| :: at[j] <= i
  }

  lemma AlongLater(at: seq<nat>, batches: seq<Batch>, h: History, g: History)
    requires Along(at, batches, h.parts) && Passed(at, h.parts) && Extends(h, g)
    ensures Along(at, batches, g.parts) && Passed(at, g.parts)
  {
  }

  lemma AlongServed(at: seq<nat>, batches: seq<Batch>, parts: seq<Part>, k: nat, batch: Batch)
    requires Along(at, batches, parts) && Passed(at, parts)
    requires k < |parts| && parts[k].fate.Closed? && (forall i | 0 <= i < k :: !parts[i].fate.Closed?)
    requires batch.text == Trim(Raw(parts[k].pieces))
    ensures Along(at + [k], batches + [batch], parts) && Passed(at + [k], parts)
  {
  }

  ghost predicate Walks(cfg: Config, ops: seq<Op>, parts: seq<Part>) {
    Along(Positions(cfg, ops), Batches(cfg, ops), parts) && Passed(Positions(cfg, ops), parts)
  }

  lemma {:induction false} WalksOn(cfg: Config, before: seq<Op>, op: Op)
    requires Walks(cfg, before, Trace(cfg, before).parts)
    ensures Walks(cfg, before, Trace(cfg, before + [op]).parts)
  {
    TraceExtends(cfg, before, [op]);
    AlongLater(Positions(cfg, before), Batches(cfg, before), Trace(cfg, before), Trace(cfg, before + [op]));
  }

  lemma {:induction false} WalksNow(cfg: Config, ops: seq<Op>)
    requires ops != [] && Walks(cfg, ops[..|ops| - 1], Trace(cfg, ops).parts)
    ensures Walks(cfg, ops, Trace(cfg, ops).parts)
  {
    var before, op, parts := ops[..|ops| - 1], ops[|ops| - 1], Trace(cfg, ops).parts;
    var at, batches := Positions(cfg, before), Batches(cfg, before);
    if Output(Run(cfg, before), op).Some? {
      Conservation(cfg, ops);
      OldestIsFirst(Run(cfg, ops), Trace(cfg, ops));
      AlongServed(at, batches, parts, FirstClosed(parts), Served(Run(cfg, ops)).value);
    } else {
      assert at + [] == at && batches + [] == batches;
    }
  }

  lemma {:induction false} RunWalks(cfg: Config, ops: seq<Op>)
    ensures Walks(cfg, ops, Trace(cfg, ops).parts)
  {
    if ops != [] {
      RunWalks(cfg, ops[..|ops| - 1]);
      WalksOn(cfg, ops[..|ops| - 1], ops[|ops| - 1]);
      assert ops[..|ops| - 1] + [ops[|ops| - 1]] == ops;
      WalksNow(cfg, ops);
    }
  }

  /**
   In every run, reopens and crashes included, each batch handed out is one part of the log without
   its torn tail, so it is empty or ends a line, and the batches follow the order of the log.
   */
  lemma {:induction false} ServedInLogOrder(cfg: Config, ops: seq<Op>, j: nat)
    requires j < |Batches(cfg, ops)|
    ensures var at, parts := Positions(cfg, ops), Trace(cfg, ops).parts;
            && |at| == |Batches(cfg, ops)| && at[j] < |parts|
            && Batches(cfg, ops)[j].text == Trim(Raw(parts[at[j]].pieces))
            && forall i | 0 <= i < j :: at[i] <= at[j]
    ensures SpoolFraming.EndsLine(Batches(cfg, ops)[j].text)
  {
    RunWalks(cfg, ops);
    SpoolFraming.TrimEndsLine(Raw(Trace(cfg, ops).parts[Positions(cfg, ops)[j]].pieces));
  }
}

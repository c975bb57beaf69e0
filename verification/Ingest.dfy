/** The push endpoint's routing, as functions of the request body. */
module Ingest {
  import opened Json
  import opened SortedMap
  import opened Text
  import opened TextLines
  import opened Wrappers
  import Bytes
  import Envelope
  import SpoolFraming
  import SpoolHistory
  import SpoolState
  import SpoolTorn
  import Utf8

  // ----- what each module is sent -----

  /** The envelopes among these lines that are accepted for one module, in body order. */
  function Accepted(read: FloatReader, lines: seq<string>, nowNs: Int64, name: string): seq<string> {
    if lines == [] then []
    else
      var r := Envelope.Normalize(read, Trim(lines[|lines| - 1]), nowNs);
      var before := Accepted(read, lines[..|lines| - 1], nowNs, name);
      if Trim(lines[|lines| - 1]) != "" && r.Some? && r.value.0 == name then before + [r.value.1] else before
  }

  function NonBlank(lines: seq<string>): nat {
    if lines == [] then 0
    else NonBlank(lines[..|lines| - 1]) + (if Trim(lines[|lines| - 1]) == "" then 0 else 1)
  }

  function AcceptedCount(read: FloatReader, lines: seq<string>, nowNs: Int64): nat {
    if lines == [] then 0
    else
      var line := Trim(lines[|lines| - 1]);
      AcceptedCount(read, lines[..|lines| - 1], nowNs)
      + (if line != "" && Envelope.Normalize(read, line, nowNs).Some? then 1 else 0)
  }

  // ----- which lines those are -----

  /** The line counts as accepted. */
  predicate Taken(read: FloatReader, line: string, nowNs: Int64) {
    Trim(line) != "" && Envelope.Normalize(read, Trim(line), nowNs).Some?
  }

  /** What a line sends to a module, if anything. */
  function EnvelopeFor(read: FloatReader, nowNs: Int64, name: string): string -> Option<string> {
    line =>
      if Taken(read, line, nowNs) && Envelope.Normalize(read, Trim(line), nowNs).value.0 == name
      then Some(Envelope.Normalize(read, Trim(line), nowNs).value.1)
      else None
  }

  predicate Increasing(at: seq<nat>) {
    forall i, j | 0 <= i < j < |at| :: at[i] < at[j]
  }

  /** The places `at` are, in order, those of the lines that `f` makes something of, and `got` is what. */
  ghost predicate Picks(f: string -> Option<string>, lines: seq<string>, at: seq<nat>, got: seq<string>) {
    && Increasing(at) && |at| == |got|
    && (forall i: nat :: i in at <==> i < |lines| && f(lines[i]).Some?)
    && forall k | 0 <= k < |at| :: at[k] < |lines| && f(lines[at[k]]) == Some(got[k])
  }

  lemma PicksNext(f: string -> Option<string>, lines: seq<string>, at: seq<nat>, got: seq<string>)
    requires lines != [] && Picks(f, lines[..|lines| - 1], at, got)
    ensures var n, r := |lines| - 1, f(lines[|lines| - 1]);
            if r.Some? then Picks(f, lines, at + [n], got + [r.value]) else Picks(f, lines, at, got)
  {
    var n := |lines| - 1;
    forall k | 0 <= k < |at|
      ensures at[k] < n
    {
      assert at[k] in at;
    }
    assert forall i: nat | i < n :: lines[..n][i] == lines[i];
    assert forall i: nat :: i in at + [n] <==> i in at || i == n;
  }

  /** A module is sent every line for it, once each and in order. */
  lemma {:induction false} AcceptedInOrder(read: FloatReader, lines: seq<string>, nowNs: Int64, name: string)
    returns (at: seq<nat>)
    ensures Picks(EnvelopeFor(read, nowNs, name), lines, at, Accepted(read, lines, nowNs, name))
  {
    if lines == [] {
      at := [];
    } else {
      var n, f := |lines| - 1, EnvelopeFor(read, nowNs, name);
      at := AcceptedInOrder(read, lines[..n], nowNs, name);
      PicksNext(f, lines, at, Accepted(read, lines[..n], nowNs, name));
      if f(lines[n]).Some? { at := at + [n]; }
    }
  }

  ghost function Places(p: string -> bool, lines: seq<string>): set<nat> {
    set i: nat | i < |lines| && p(lines[i])
  }

  lemma PlacesNext(p: string -> bool, lines: seq<string>)
    requires lines != []
    ensures |Places(p, lines)| == |Places(p, lines[..|lines| - 1])| + if p(lines[|lines| - 1]) then 1 else 0
  {
    var n := |lines| - 1;
    assert Places(p, lines[..n]) == Places(p, lines) - {n};
  }

  /** The counts are the numbers of lines accepted and of lines that are not blank. */
  lemma {:induction false} CountsExactly(read: FloatReader, lines: seq<string>, nowNs: Int64)
    ensures AcceptedCount(read, lines, nowNs) == |Places(line => Taken(read, line, nowNs), lines)|
    ensures NonBlank(lines) == |Places(line => Trim(line) != "", lines)|
  {
    if lines != [] {
      CountsExactly(read, lines[..|lines| - 1], nowNs);
      PlacesNext(line => Taken(read, line, nowNs), lines);
      PlacesNext(line => Trim(line) != "", lines);
    }
  }

  predicate AllTaken(read: FloatReader, lines: seq<string>, nowNs: Int64) {
    forall i | 0 <= i < |lines| :: Taken(read, lines[i], nowNs)
  }

  lemma {:induction false} AllCounted(read: FloatReader, lines: seq<string>, nowNs: Int64)
    requires AllTaken(read, lines, nowNs)
    ensures AcceptedCount(read, lines, nowNs) == NonBlank(lines) == |lines|
  {
    if lines != [] { AllCounted(read, lines[..|lines| - 1], nowNs); }
  }

  // ----- routing -----

  type Routes = seq<Entry<seq<string>>>

  /** `by_module.entry(module).or_default().push(line)`. */
  function Push(routes: Routes, name: string, line: string): Routes {
    match Get<seq<string>>(routes, name)
    case Some(lines) => Insert(routes, name, lines + [line])
    case None => Insert(routes, name, [line])
  }

  /** The map holds exactly the accepted lines, under no other keys. */
  ghost predicate Routed(read: FloatReader, lines: seq<string>, nowNs: Int64, routes: Routes) {
    && Sorted(routes)
    && forall name ::
         Get(routes, name) ==
         if Accepted(read, lines, nowNs, name) == [] then None else Some(Accepted(read, lines, nowNs, name))
  }

  lemma PushRouted(read: FloatReader, lines: seq<string>, nowNs: Int64, routes: Routes)
    requires lines != [] && Routed(read, lines[..|lines| - 1], nowNs, routes)
    requires Trim(lines[|lines| - 1]) != "" && Envelope.Normalize(read, Trim(lines[|lines| - 1]), nowNs).Some?
    ensures var r := Envelope.Normalize(read, Trim(lines[|lines| - 1]), nowNs).value;
            Routed(read, lines, nowNs, Push(routes, r.0, r.1))
  {
    var r := Envelope.Normalize(read, Trim(lines[|lines| - 1]), nowNs).value;
    var before := Accepted(read, lines[..|lines| - 1], nowNs, r.0);
    assert Get(routes, r.0) == if before == [] then None else Some(before);
    assert Push(routes, r.0, r.1) == Insert(routes, r.0, before + [r.1]) by {
      if before == [] { assert before + [r.1] == [r.1]; }
    }
    InsertSorted(routes, r.0, before + [r.1]);
    forall name
      ensures Get(Insert(routes, r.0, before + [r.1]), name) ==
              if Accepted(read, lines, nowNs, name) == [] then None else Some(Accepted(read, lines, nowNs, name))
    {
      GetInsert(routes, r.0, before + [r.1], name);
    }
  }

  lemma {:induction false} AcceptedName(read: FloatReader, lines: seq<string>, nowNs: Int64, name: string)
    requires Accepted(read, lines, nowNs, name) != []
    ensures Envelope.ValidModule(name)
  {
    var line := Trim(lines[|lines| - 1]);
    Envelope.NormalizedIsLine(read, line, nowNs);
    if Accepted(read, lines[..|lines| - 1], nowNs, name) != [] {
      AcceptedName(read, lines[..|lines| - 1], nowNs, name);
    }
  }

  /** Lines are only ever routed to valid module names. */
  lemma RoutedNames(read: FloatReader, lines: seq<string>, nowNs: Int64, routes: Routes)
    requires Routed(read, lines, nowNs, routes)
    ensures forall i | 0 <= i < |routes| :: Envelope.ValidModule(routes[i].key)
  {
    forall i | 0 <= i < |routes|
      ensures Envelope.ValidModule(routes[i].key)
    {
      GetIsIndex(routes, i);
      AcceptedName(read, lines, nowNs, routes[i].key);
    }
  }

  /** Split, normalize and route a body; counts as the response reports them. */
  method Route(read: FloatReader, text: string, nowNs: Int64) returns (routes: Routes, accepted: nat, rejected: nat)
    ensures Routed(read, Lines(text), nowNs, routes)
    ensures accepted + rejected == NonBlank(Lines(text))
    ensures accepted == AcceptedCount(read, Lines(text), nowNs)
  {
    routes, accepted, rejected := [], 0, 0;
    var lines := Lines(text);
    for i := 0 to |lines|
      invariant Routed(read, lines[..i], nowNs, routes)
      invariant accepted + rejected == NonBlank(lines[..i])
      invariant accepted == AcceptedCount(read, lines[..i], nowNs)
    {
      ghost var done := lines[..i + 1];
      assert done[..|done| - 1] == lines[..i] && done[|done| - 1] == lines[i];
      var line := Trim(lines[i]);
      if line == "" { continue; }
      match Envelope.Normalize(read, line, nowNs)
      case Some(r) =>
        PushRouted(read, done, nowNs, routes);
        routes := Push(routes, r.0, r.1);
        accepted := accepted + 1;
      case None =>
        rejected := rejected + 1;
    }
    assert lines[..|lines|] == lines;
  }

  // ----- end-to-end framing -----

  /** The bytes of each line. */
  function EncodeAll(lines: seq<string>): (bs: seq<Bytes.Bytes>)
    ensures |bs| == |lines| && forall i | 0 <= i < |bs| :: bs[i] == Utf8.Encode(lines[i])
  {
    if lines == [] then [] else [Utf8.Encode(lines[0])] + EncodeAll(lines[1..])
  }

  predicate AllLines(lines: seq<string>) {
    forall i | 0 <= i < |lines| :: lines[i] != "" && '\n' !in lines[i]
  }

  lemma {:induction false} AcceptedAreLines(read: FloatReader, lines: seq<string>, nowNs: Int64, name: string)
    ensures AllLines(Accepted(read, lines, nowNs, name))
  {
    if lines != [] {
      AcceptedAreLines(read, lines[..|lines| - 1], nowNs, name);
      Envelope.NormalizedIsLine(read, Trim(lines[|lines| - 1]), nowNs);
    }
  }

  lemma {:induction false} EnvelopePieces(lines: seq<string>)
    requires AllLines(lines)
    ensures var pieces := SpoolHistory.Wholes(EncodeAll(lines));
            && SpoolFraming.Clean(pieces) && SpoolFraming.TornCount(pieces) == 0
            && SpoolFraming.Complete(pieces) == EncodeAll(lines)
  {
    if lines != [] {
      assert lines[0] != "" && '\n' !in lines[0];
      EnvelopePieces(lines[1..]);
      Utf8.NoNewlineBytes(lines[0]);
      Utf8.SomeBytes(lines[0]);
      var b := Utf8.Encode(lines[0]);
      var rest := EncodeAll(lines[1..]);
      assert SpoolHistory.Wholes(EncodeAll(lines)) == [SpoolHistory.Whole(b)] + SpoolHistory.Wholes(rest);
    }
  }

  /** What reaches one module's spool: push bodies, polls, drains, acknowledgements and restarts. */
  datatype Call =
    | Post(body: string, nowNs: Int64)
    | Poll(device: Json, timestampNs: Int64, values: Json)
    | Drain
    | Confirm(id: string)
    | Restart

  /** The envelopes a call sends to the module's spool. */
  function Sent(read: FloatReader, name: string, call: Call): seq<string> {
    match call
    case Post(body, nowNs) => Accepted(read, Lines(body), nowNs, name)
    case Poll(device, timestampNs, values) =>
      (match Envelope.Reading(name, device, timestampNs, values) case Some(line) => [line] case None => [])
    case _ => []
  }

  function SentBy(read: FloatReader, name: string, calls: seq<Call>): seq<string> {
    if calls == [] then []
    else SentBy(read, name, calls[..|calls| - 1]) + Sent(read, name, calls[|calls| - 1])
  }

  /** What a call does to the spool. */
  function Operation(read: FloatReader, name: string, call: Call): SpoolState.Op {
    match call
    case Drain => SpoolState.Next
    case Confirm(id) => SpoolState.Ack(id)
    case Restart => SpoolState.Reopen
    case _ => SpoolState.Append(EncodeAll(Sent(read, name, call)))
  }

  function Operations(read: FloatReader, name: string, calls: seq<Call>): (ops: seq<SpoolState.Op>)
    ensures |ops| == |calls|
  {
    if calls == [] then []
    else Operations(read, name, calls[..|calls| - 1]) + [Operation(read, name, calls[|calls| - 1])]
  }

  lemma SentAreLines(read: FloatReader, name: string, call: Call)
    ensures AllLines(Sent(read, name, call))
  {
    match call
    case Post(body, nowNs) => AcceptedAreLines(read, Lines(body), nowNs, name);
    case Poll(device, timestampNs, values) => Envelope.ReadingIsLine(name, device, timestampNs, values);
    case _ =>
  }

  lemma {:induction false} EncodeAllAppend(a: seq<string>, b: seq<string>)
    ensures EncodeAll(a + b) == EncodeAll(a) + EncodeAll(b)
  {
    if a == [] {
      assert a + b == b;
    } else {
      assert (a + b)[0] == a[0] && (a + b)[1..] == a[1..] + b;
      EncodeAllAppend(a[1..], b);
    }
  }

  lemma {:induction false} EncodedClean(lines: seq<string>)
    requires AllLines(lines)
    ensures SpoolFraming.CleanLines(EncodeAll(lines))
  {
    if lines != [] {
      assert lines[0] != "" && '\n' !in lines[0];
      EncodedClean(lines[1..]);
      Utf8.NoNewlineBytes(lines[0]);
    }
  }

  lemma OperationLogs(read: FloatReader, name: string, call: Call)
    ensures var op := Operation(read, name, call);
            && SpoolFraming.Complete(SpoolHistory.Logged(op)) == EncodeAll(Sent(read, name, call))
            && (op.Append? ==> SpoolFraming.CleanLines(op.lines)) && !op.Crash?
  {
    SentAreLines(read, name, call);
    EnvelopePieces(Sent(read, name, call));
    EncodedClean(Sent(read, name, call));
  }

  /** The log of such a run is the envelopes sent, and nothing in it is torn. */
  lemma {:induction false} CallsLogged(read: FloatReader, name: string, calls: seq<Call>)
    ensures var ops := Operations(read, name, calls);
            && SpoolFraming.CleanRun(ops) && SpoolFraming.Crashes(ops) == 0
            && SpoolFraming.Complete(SpoolHistory.LoggedBy(ops)) == EncodeAll(SentBy(read, name, calls))
  {
    if calls != [] {
      var before, call := calls[..|calls| - 1], calls[|calls| - 1];
      var ops := Operations(read, name, calls);
      CallsLogged(read, name, before);
      OperationLogs(read, name, call);
      assert ops[..|ops| - 1] == Operations(read, name, before);
      SpoolFraming.CompleteAppend(SpoolHistory.LoggedBy(ops[..|ops| - 1]), SpoolHistory.Logged(ops[|ops| - 1]));
      EncodeAllAppend(SentBy(read, name, before), Sent(read, name, call));
    }
  }

  lemma {:induction false} EncodeAllSlice(lines: seq<string>, a: nat, b: nat)
    requires a <= b <= |lines|
    ensures EncodeAll(lines)[a..b] == EncodeAll(lines[a..b])
  {
    var x, y := EncodeAll(lines)[a..b], EncodeAll(lines[a..b]);
    forall i | 0 <= i < b - a
      ensures x[i] == y[i]
    {
      assert x[i] == EncodeAll(lines)[a + i];
    }
  }

  /** These are consecutive envelopes of those sent. */
  ghost predicate Consecutive(got: seq<Bytes.Bytes>, sent: seq<string>) {
    exists a, b :: 0 <= a <= b <= |sent| && got == EncodeAll(sent[a..b])
  }

  /**
   End-to-end framing: whatever is pushed and polled, drained, acknowledged and restarted, each batch
   the module's consumer gets, split at newlines, is a run of consecutive envelopes of those sent,
   byte for byte: those of one part of the log.
   */
  lemma {:induction false} EnvelopesFramed(
    cfg: SpoolState.Config, read: FloatReader, name: string, calls: seq<Call>, j: nat
  )
    requires j < |SpoolState.Batches(cfg, Operations(read, name, calls))|
    ensures Consecutive(SpoolFraming.Lines(SpoolState.Batches(cfg, Operations(read, name, calls))[j].text),
                        SentBy(read, name, calls))
  {
    var ops, sent := Operations(read, name, calls), SentBy(read, name, calls);
    CallsLogged(read, name, calls);
    SpoolTorn.CrashFreeIsGuarded(cfg, ops);
    var a, b := SpoolTorn.ServedSlice(cfg, ops, j);
    EncodeAllSlice(sent, a, b);
  }
}

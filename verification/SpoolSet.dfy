/** One spool per module under a shared root, and the push endpoint that feeds them. */
module SpoolSets {
  import opened Bytes
  import opened Json
  import opened JsonCursor
  import opened SortedMap
  import opened SpoolDirectory
  import opened Wrappers
  import Envelope
  import Ingest
  import S = SpoolState
  import SegmentName
  import TextLines

  /** No two modules share a spool or a directory. */
  ghost predicate Separate(spools: map<string, Spool>) {
    forall a, b | a in spools && b in spools && a != b ::
      spools[a] != spools[b] && spools[a].dir != spools[b].dir
  }

  class SpoolSet {
    const cfg: S.Config
    var spools: map<string, Spool>

    ghost function Objects(): set<object>
      reads this
    {
      (set name | name in spools :: (spools[name] as object))
      + (set name | name in spools :: (spools[name].dir as object))
    }

    ghost predicate Usable(name: string)
      requires name in spools
      reads this, spools[name], spools[name].dir
    {
      Envelope.ValidModule(name) && spools[name].cfg == cfg && spools[name].Valid()
    }

    ghost predicate Valid()
      reads this, Objects()
    {
      Separate(spools) && forall name | name in spools :: Usable(name)
    }

    /** What is pending for a module; a module without a spool is an empty stream. */
    ghost function Pending(name: string): S.State
      reads this, Objects()
    {
      if name in spools then spools[name].Abs() else S.EMPTY
    }

    /** Existing module directories reopen at startup; other names are left alone. */
    constructor (dirs: map<string, Directory>, segmentBytes: nat, maxBytes: nat)
      requires forall a, b | a in dirs && b in dirs && a != b :: dirs[a] != dirs[b]
      ensures Valid() && cfg == S.Config(segmentBytes, maxBytes)
      ensures forall name :: name in spools <==> name in dirs && Envelope.ValidModule(name)
      ensures forall name | name in spools :: fresh(spools[name]) && Reopened(spools[name], dirs[name], cfg)
    {
      var config := S.Config(segmentBytes, maxBytes);
      var found := OpenAll(dirs, config);
      this.cfg := config;
      this.spools := found;
    }

    /** Spools stay with their modules; any other spool is new. */
    twostate predicate Kept()
      reads this, Objects()
    {
      && (forall name | name in old(spools) :: name in spools && spools[name] == old(spools[name]))
      && (forall name | name in spools && name !in old(spools) :: fresh(spools[name]) && fresh(spools[name].dir))
    }

    /** Open a module's spool on a new, empty directory. */
    method Create(name: string)
      requires Valid() && Envelope.ValidModule(name) && name !in spools
      modifies this
      ensures Valid() && name in spools && spools == old(spools)[name := spools[name]]
      ensures fresh(spools[name]) && fresh(spools[name].dir)
      ensures Pending(name) == S.EMPTY
    {
      var spool := NewSpool(cfg);
      spools := spools[name := spool];
    }

    /** The module's spool, created if it does not exist yet; invalid names are refused. */
    method ForModule(name: string) returns (ok: bool)
      requires Valid()
      modifies this
      ensures Valid() && ok == Envelope.ValidModule(name)
      ensures ok ==> name in spools
      ensures Kept() && forall other :: Pending(other) == old(Pending(other))
    {
      ok := Envelope.ValidModule(name);
      if ok && name !in spools { Create(name); }
    }

    /** Append to one module's spool; every other module's spool is left as it was. */
    method AppendTo(name: string, lines: seq<Bytes>)
      requires Valid() && name in spools
      modifies Objects()
      ensures Valid() && Pending(name) == S.AfterAppend(cfg, old(Pending(name)), lines)
      ensures forall other | other != name :: Pending(other) == old(Pending(other))
    {
      var written := spools[name].Append(lines);
    }

    /** One turn of the delivery loop. */
    method Feed(name: string, lines: seq<Bytes>)
      requires Valid() && Envelope.ValidModule(name)
      modifies this, Objects()
      ensures Valid() && Kept()
      ensures forall other :: Pending(other) ==
                if other == name then S.AfterAppend(cfg, old(Pending(other)), lines) else old(Pending(other))
    {
      var ok := ForModule(name);
      AppendTo(name, lines);
    }

    /** Append each module's lines to its spool. */
    method Deliver(routes: Ingest.Routes)
      requires Valid() && Sorted(routes)
      requires forall i | 0 <= i < |routes| :: Envelope.ValidModule(routes[i].key)
      modifies this, Objects()
      ensures Valid()
      ensures forall name :: Pending(name) == Delivered(cfg, old(Pending(name)), routes, name)
    {
      for i := 0 to |routes|
        invariant Valid() && Kept()
        invariant forall name :: Pending(name) == Delivered(cfg, old(Pending(name)), routes[..i], name)
      {
        Feed(routes[i].key, Ingest.EncodeAll(routes[i].value));
        forall name
          ensures Delivered(cfg, old(Pending(name)), routes[..i + 1], name) ==
                  (if name == routes[i].key
                   then S.AfterAppend(cfg, Delivered(cfg, old(Pending(name)), routes[..i], name),
                                      Ingest.EncodeAll(routes[i].value))
                   else Delivered(cfg, old(Pending(name)), routes[..i], name))
        {
          DeliveredStep(cfg, old(Pending(name)), routes, i, name);
        }
      }
      assert routes[..|routes|] == routes;
    }

    /**
     The push endpoint on an authorized body: every non-blank line is counted once, and each
     module's stream grows by exactly its accepted lines in body order.
     */
    method IngestBody(read: FloatReader, text: string, nowNs: Int64) returns (accepted: nat, rejected: nat)
      requires Valid()
      modifies this, Objects()
      ensures Valid()
      ensures accepted + rejected == Ingest.NonBlank(TextLines.Lines(text))
      ensures accepted == Ingest.AcceptedCount(read, TextLines.Lines(text), nowNs)
      ensures forall name :: Pending(name) ==
                S.AfterAppend(cfg, old(Pending(name)),
                              Ingest.EncodeAll(Ingest.Accepted(read, TextLines.Lines(text), nowNs, name)))
      ensures forall ls, ends | BodyOf(read, ls, ends, text, nowNs) ::
                && accepted == |ls| && rejected == 0
                && forall name :: Pending(name) ==
                     S.AfterAppend(cfg, old(Pending(name)), Ingest.EncodeAll(Ingest.Accepted(read, ls, nowNs, name)))
    {
      var routes;
      routes, accepted, rejected := Ingest.Route(read, text, nowNs);
      Ingest.RoutedNames(read, TextLines.Lines(text), nowNs, routes);
      Deliver(routes);
      forall name
        ensures Delivered(cfg, old(Pending(name)), routes, name) ==
                S.AfterAppend(cfg, old(Pending(name)),
                              Ingest.EncodeAll(Ingest.Accepted(read, TextLines.Lines(text), nowNs, name)))
      {
        DeliveredAll(cfg, old(Pending(name)), read, TextLines.Lines(text), nowNs, routes, name);
      }
      forall ls, ends | BodyOf(read, ls, ends, text, nowNs)
        ensures TextLines.Lines(text) == ls && Ingest.AcceptedCount(read, ls, nowNs) == Ingest.NonBlank(ls) == |ls|
      {
        TextLines.LinesOfJoined(ls, ends);
        Ingest.AllCounted(read, ls, nowNs);
      }
    }

    /**
     The drain endpoint. A module nobody has produced for is an empty stream; asking for a batch
     may close that module's open file and touches no other module.
     */
    method ReadingsNext(query: Option<string>) returns (r: Reply)
      requires Valid()
      modifies Objects()
      ensures Valid()
      ensures r.BadRequest? <==> query.None? || !Envelope.ValidModule(query.value)
      ensures forall name :: Pending(name) ==
                if query == Some(name) && Envelope.ValidModule(name) then S.RotateIfIdle(old(Pending(name)))
                else old(Pending(name))
      ensures !r.BadRequest? ==>
                match S.Served(Pending(query.value))
                case None => r == NoContent
                case Some(b) => r == Batch(SegmentName.Name(b.id), query.value, b.text)
    {
      if query.None? || !Envelope.ValidModule(query.value) { return BadRequest; }
      var name := query.value;
      if name !in spools { return NoContent; }
      var batch := spools[name].NextBatch();
      r := match batch case Some((id, text)) => Batch(id, name, text) case None => NoContent;
    }

    /** The acknowledgement endpoint: a document naming a module and a batch. */
    method ReadingsAck(read: FloatReader, text: string) returns (r: Reply)
      requires Valid()
      modifies Objects()
      ensures Valid()
      ensures r == match AckRequest(Parse(read, text))
                   case None => BadRequest
                   case Some((name, id)) => Acked(S.AckResult(old(Pending(name)), id))
      ensures forall name :: Pending(name) ==
                match AckRequest(Parse(read, text))
                case Some((n, id)) => if n == name then S.AfterAck(old(Pending(name)), id) else old(Pending(name))
                case None => old(Pending(name))
    {
      var doc := ReadDocument(read, text);
      var request := AckRequest(doc);
      if request.None? { return BadRequest; }
      var (name, id) := request.value;
      if name !in spools { return Acked(false); }
      var acked := spools[name].Ack(id);
      r := Acked(acked);
    }
  }

  /** The body consists of these lines, with these ends, and all of them are acceptable. */
  predicate BodyOf(read: FloatReader, ls: seq<string>, ends: seq<string>, text: string, nowNs: Int64) {
    TextLines.AllEnded(ls, ends) && TextLines.Joined(ls, ends) == text && Ingest.AllTaken(read, ls, nowNs)
  }

  datatype Reply = BadRequest | NoContent | Batch(batchId: string, moduleName: string, text: Bytes) | Acked(acked: bool)

  /** The module and batch an acknowledgement names; both must be strings. */
  function AckRequest(doc: Result<Json, ParseError>): Option<(string, string)> {
    if doc.Err? then None
    else
      var name, id := StringMember(doc.value, "module"), StringMember(doc.value, "batchId");
      if name.None? || id.None? then None else Some((name.value, id.value))
  }

  lemma {:induction false} DeliveredAll(
    cfg: S.Config, s: S.State, read: FloatReader, lines: seq<string>, nowNs: Int64, routes: Ingest.Routes, name: string
  )
    requires Ingest.Routed(read, lines, nowNs, routes)
    ensures Delivered(cfg, s, routes, name) ==
            S.AfterAppend(cfg, s, Ingest.EncodeAll(Ingest.Accepted(read, lines, nowNs, name)))
  {
    assert Get(routes, name) ==
           if Ingest.Accepted(read, lines, nowNs, name) == [] then None
           else Some(Ingest.Accepted(read, lines, nowNs, name));
  }

  /** A module's stream after its share of the routes was appended. */
  ghost function Delivered(cfg: S.Config, s: S.State, routes: Ingest.Routes, name: string): S.State {
    match Get<seq<string>>(routes, name)
    case Some(lines) => S.AfterAppend(cfg, s, Ingest.EncodeAll(lines))
    case None => s
  }

  lemma DeliveredStep(cfg: S.Config, s: S.State, routes: Ingest.Routes, i: nat, name: string)
    requires Sorted(routes) && i < |routes|
    ensures Delivered(cfg, s, routes[..i + 1], name) ==
            if name == routes[i].key
            then S.AfterAppend(cfg, Delivered(cfg, s, routes[..i], name), Ingest.EncodeAll(routes[i].value))
            else Delivered(cfg, s, routes[..i], name)
  {
    assert routes[..i + 1] == routes[..i] + [routes[i]];
    GetSnoc(routes[..i], routes[i], name);
    GetBelow(routes[..i], routes[i].key);
  }

  /** A spool just opened on a directory. */
  ghost predicate Reopened(spool: Spool, dir: Directory, cfg: S.Config)
    reads spool, dir, spool.dir
  {
    && spool.dir == dir && spool.cfg == cfg && spool.Valid()
    && spool.Abs() == S.Open(Listing(dir.files), CurrentFile(dir.files))
  }

  method OpenOne(dir: Directory, cfg: S.Config) returns (spool: Spool)
    ensures fresh(spool) && Reopened(spool, dir, cfg)
  {
    spool := new Spool.Open(dir, cfg.segmentBytes, cfg.maxBytes);
  }

  method OpenAll(dirs: map<string, Directory>, cfg: S.Config) returns (spools: map<string, Spool>)
    ensures forall name :: name in spools <==> name in dirs && Envelope.ValidModule(name)
    ensures forall name | name in spools :: fresh(spools[name]) && Reopened(spools[name], dirs[name], cfg)
    ensures forall a, b | a in spools && b in spools && a != b :: spools[a] != spools[b]
  {
    spools := map[];
    var entries := dirs;
    while entries.Keys != {}
      invariant forall name | name in entries :: name in dirs && entries[name] == dirs[name]
      invariant forall name | name in dirs :: name in entries || (name in spools <==> Envelope.ValidModule(name))
      invariant forall name | name in spools :: name in dirs && name !in entries
      invariant forall name | name in spools :: fresh(spools[name]) && Reopened(spools[name], dirs[name], cfg)
      invariant forall a, b | a in spools && b in spools && a != b :: spools[a] != spools[b]
      decreases entries.Keys
    {
      var name :| name in entries;
      if Envelope.ValidModule(name) {
        var spool := OpenOne(entries[name], cfg);
        spools := spools[name := spool];
      }
      entries := entries - {name};
    }
  }

  method NewSpool(cfg: S.Config) returns (spool: Spool)
    ensures fresh(spool) && fresh(spool.dir)
    ensures spool.cfg == cfg && spool.Valid() && spool.Abs() == S.EMPTY
  {
    var dir := new Directory(map[]);
    spool := new Spool.Open(dir, cfg.segmentBytes, cfg.maxBytes);
    assert Listing(dir.files) == map[];
  }
}

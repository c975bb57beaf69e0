/**
 The spool as the program runs it: a directory of named files, scanned in no particular order, and
 the counters held in memory. Each method is proved to perform the corresponding operation of
 `SpoolState` on the value the directory stands for.
 */
module SpoolDirectory {
  import opened Bytes
  import opened Wrappers
  import SegmentName
  import S = SpoolState

  const CURRENT := "current.jsonl"

  /** What survives a crash: file names and contents. */
  class Directory {
    var files: map<string, Bytes>

    constructor (files: map<string, Bytes>)
      ensures this.files == files
    {
      this.files := files;
    }
  }

  /** The segments a listing finds, by number; every other name is ignored. */
  ghost function Listing(files: map<string, Bytes>): map<nat, Bytes> {
    map n: nat | n < SegmentName.LIMIT && SegmentName.Name(n) in files :: files[SegmentName.Name(n)]
  }

  function CurrentFile(files: map<string, Bytes>): Bytes {
    if CURRENT in files then files[CURRENT] else []
  }

  // ----- names and listings -----

  lemma NamesDiffer(n: nat, m: nat)
    requires n != m && m < SegmentName.LIMIT
    ensures SegmentName.Name(n) != SegmentName.Name(m)
  {
    SegmentName.ParseName(n);
    SegmentName.ParseName(m);
  }

  lemma CurrentIsNoSegment(n: nat)
    ensures SegmentName.Name(n) != CURRENT && SegmentName.Parse(CURRENT).None?
  {
    assert SegmentName.Name(n)[0] == 's';
  }

  lemma ListingOfCurrent(files: map<string, Bytes>, b: Bytes)
    ensures Listing(files[CURRENT := b]) == Listing(files)
  {
    forall n: nat
      ensures SegmentName.Name(n) != CURRENT
    {
      CurrentIsNoSegment(n);
    }
  }

  lemma ListingWithout(files: map<string, Bytes>, name: string)
    ensures Listing(files - {name}) ==
            match SegmentName.Parse(name) case Some(n) => Listing(files) - {n} case None => Listing(files)
  {
    SegmentName.NameParse(name);
    forall m: nat | m < SegmentName.LIMIT
      ensures SegmentName.Name(m) == name <==> SegmentName.Parse(name) == Some(m)
    {
      SegmentName.ParseName(m);
    }
  }

  lemma ListingWith(files: map<string, Bytes>, n: nat, b: Bytes)
    requires n < SegmentName.LIMIT
    ensures Listing(files[SegmentName.Name(n) := b]) == Listing(files)[n := b]
  {
    forall m: nat | m < SegmentName.LIMIT && m != n
      ensures SegmentName.Name(m) != SegmentName.Name(n)
    {
      NamesDiffer(n, m);
    }
  }

  lemma ListingBeyond(files: map<string, Bytes>, n: nat, b: Bytes)
    requires n >= SegmentName.LIMIT
    ensures Listing(files[SegmentName.Name(n) := b]) == Listing(files)
  {
    forall m: nat | m < SegmentName.LIMIT
      ensures SegmentName.Name(m) != SegmentName.Name(n)
    {
      NamesDiffer(n, m);
    }
  }

  lemma ListingRename(files: map<string, Bytes>, n: nat, b: Bytes)
    ensures Listing((files - {CURRENT})[SegmentName.Name(n) := b]) ==
            if n < SegmentName.LIMIT then Listing(files)[n := b] else Listing(files)
    ensures CurrentFile((files - {CURRENT})[SegmentName.Name(n) := b]) == []
  {
    CurrentIsNoSegment(n);
    ListingWithout(files, CURRENT);
    if n < SegmentName.LIMIT {
      ListingWith(files - {CURRENT}, n, b);
    } else {
      ListingBeyond(files - {CURRENT}, n, b);
    }
  }

  lemma ListedName(files: map<string, Bytes>, name: string)
    requires name in files
    ensures SegmentName.Parse(name).Some? ==>
              var n := SegmentName.Parse(name).value;
              n in Listing(files) && Listing(files)[n] == files[name] && name == SegmentName.Name(n)
  {
    SegmentName.NameParse(name);
  }

  // ----- the spool -----

  datatype Segment = Segment(number: nat, name: string, len: nat)

  ghost function Numbers(segments: seq<Segment>): set<nat> {
    if segments == [] then {} else Numbers(segments[..|segments| - 1]) + {segments[|segments| - 1].number}
  }

  predicate ProperlyNamed(segments: seq<Segment>) {
    forall k | 0 <= k < |segments| :: segments[k].name == SegmentName.Name(segments[k].number)
  }

  /** How far a pass over the directory has come: the listing `left` is still unread out of `all`. */
  ghost predicate Scanned(all: map<nat, Bytes>, left: map<nat, Bytes>, open: nat, total: nat, segments: seq<Segment>) {
    && total + S.Sum(left) == open + S.Sum(all)
    && ProperlyNamed(segments)
    && Numbers(segments) + left.Keys == all.Keys
  }

  lemma ScanSegment(all: map<nat, Bytes>, left: map<nat, Bytes>, open: nat, total: nat, segments: seq<Segment>, n: nat)
    requires Scanned(all, left, open, total, segments) && n in left
    ensures Scanned(all, left - {n}, open, total + |left[n]|, segments + [Segment(n, SegmentName.Name(n), |left[n]|)])
  {
    S.SumRemove(left, n);
    var after := segments + [Segment(n, SegmentName.Name(n), |left[n]|)];
    assert after[..|after| - 1] == segments;
  }

  datatype SpoolStats = SpoolStats(totalBytes: nat, closedSegments: nat, droppedSegments: nat)

  class Spool {
    const dir: Directory
    const cfg: S.Config
    var nextSeq: nat
    var currentLen: nat
    var dropped: nat

    /** The length kept in memory is the open file's true length. */
    ghost predicate Valid()
      reads this, dir
    {
      currentLen == |CurrentFile(dir.files)|
    }

    ghost function Abs(): S.State
      reads this, dir
    {
      S.State(Listing(dir.files), CurrentFile(dir.files), nextSeq, dropped)
    }

    constructor Open(dir: Directory, segmentBytes: nat, maxBytes: nat)
      ensures this.dir == dir && cfg == S.Config(segmentBytes, maxBytes)
      ensures Valid() && dir.files == old(dir.files)
      ensures Abs() == S.Open(Listing(dir.files), CurrentFile(dir.files))
      ensures Abs().current == if "current.jsonl" in dir.files then dir.files["current.jsonl"] else []
    {
      this.dir := dir;
      this.cfg := S.Config(segmentBytes, maxBytes);
      var maxSeq := LargestSegment(dir);
      this.nextSeq := maxSeq + 1;
      this.currentLen := |CurrentFile(dir.files)|;
      this.dropped := 0;
    }

    static method LargestSegment(dir: Directory) returns (maxSeq: nat)
      ensures maxSeq == S.Greatest(Listing(dir.files).Keys)
    {
      maxSeq := 0;
      var entries := dir.files;
      ghost var all := Listing(dir.files).Keys;
      while entries.Keys != {}
        invariant forall name | name in entries :: name in dir.files && entries[name] == dir.files[name]
        invariant Listing(entries).Keys <= all
        invariant maxSeq == 0 || maxSeq in all
        invariant forall n | n in all && n !in Listing(entries) :: n <= maxSeq
        decreases entries.Keys
      {
        var name :| name in entries;
        ListedName(entries, name);
        ListingWithout(entries, name);
        entries := entries - {name};
        match SegmentName.Parse(name)
        case Some(number) => maxSeq := if number > maxSeq then number else maxSeq;
        case None =>
      }
      assert Listing(entries).Keys == {};
    }

    /** One pass over the directory: the total pending bytes and every listed segment. */
    method Scan() returns (total: nat, segments: seq<Segment>)
      requires Valid()
      ensures total == S.Total(Abs())
      ensures ProperlyNamed(segments) && Numbers(segments) == Abs().closed.Keys
    {
      total := currentLen;
      segments := [];
      var entries := dir.files;
      while entries.Keys != {}
        invariant forall name | name in entries :: name in dir.files && entries[name] == dir.files[name]
        invariant Scanned(Listing(dir.files), Listing(entries), currentLen, total, segments)
        decreases entries.Keys
      {
        var name :| name in entries;
        ListedName(entries, name);
        ListingWithout(entries, name);
        match SegmentName.Parse(name) {
          case Some(number) =>
            ScanSegment(Listing(dir.files), Listing(entries), currentLen, total, segments, number);
            total := total + |dir.files[name]|;
            segments := segments + [Segment(number, name, |dir.files[name]|)];
          case None =>
        }
        entries := entries - {name};
      }
      assert Listing(entries).Keys == {};
    }

    method Rotate()
      requires Valid()
      modifies this, dir
      ensures Valid() && Abs() == S.Rotate(old(Abs()))
      ensures old(currentLen) > 0 ==>
                && nextSeq == old(nextSeq) + 1 && CURRENT !in dir.files
                && SegmentName.Name(old(nextSeq)) in dir.files
                && dir.files[SegmentName.Name(old(nextSeq))] == old(CurrentFile(dir.files))
    {
      if currentLen == 0 { return; }
      ListingRename(dir.files, nextSeq, dir.files[CURRENT]);
      CurrentIsNoSegment(nextSeq);
      dir.files := (dir.files - {CURRENT})[SegmentName.Name(nextSeq) := dir.files[CURRENT]];
      nextSeq := nextSeq + 1;
      currentLen := 0;
    }

    /** The oldest closed segment's name; `read_dir` lists files in no particular order. */
    method OldestSegment() returns (oldest: Option<Segment>)
      ensures oldest.None? <==> Abs().closed.Keys == {}
      ensures oldest.Some? ==>
                var n := S.Least(Abs().closed.Keys);
                oldest.value == Segment(n, SegmentName.Name(n), |Abs().closed[n]|)
    {
      oldest := None;
      var entries := dir.files;
      ghost var all := Listing(dir.files);
      while entries.Keys != {}
        invariant forall name | name in entries :: name in dir.files && entries[name] == dir.files[name]
        invariant Seen(all, Listing(entries), oldest)
        decreases entries.Keys
      {
        var name :| name in entries;
        ListedName(entries, name);
        ListedName(dir.files, name);
        ListingWithout(entries, name);
        match SegmentName.Parse(name) {
          case Some(number) =>
            if oldest.None? || number < oldest.value.number {
              oldest := Some(Segment(number, name, |dir.files[name]|));
            }
          case None =>
        }
        entries := entries - {name};
      }
      assert Listing(entries).Keys == {};
      if oldest.Some? { S.LeastIs(all.Keys, oldest.value.number); }
    }

    /** `sort_by_key` on the sequence number, of which the caller uses the first entry. */
    static method SmallestFirst(segments: seq<Segment>) returns (first: Segment)
      requires segments != []
      ensures first in segments && first.number == S.Least(Numbers(segments))
    {
      first := segments[0];
      for i := 1 to |segments|
        invariant first in segments && first.number in Numbers(segments[..i])
        invariant forall n | n in Numbers(segments[..i]) :: first.number <= n
      {
        assert segments[..i + 1][..i] == segments[..i];
        if segments[i].number < first.number { first := segments[i]; }
      }
      assert segments[..|segments|] == segments;
      S.LeastIs(Numbers(segments), first.number);
    }

    method EnforceCap()
      requires Valid()
      modifies this, dir
      ensures Valid() && Abs() == S.EnforceCap(cfg, old(Abs()))
    {
      while true
        invariant Valid()
        invariant S.EnforceCap(cfg, Abs()) == S.EnforceCap(cfg, old(Abs()))
        decreases Abs().closed.Keys
      {
        var total, segments := Scan();
        if total <= cfg.maxBytes || |segments| == 0 { return; }
        var first := SmallestFirst(segments);
        S.EnforceCapStep(cfg, Abs());
        Drop(first);
      }
    }

    method Drop(first: Segment)
      requires Valid() && Abs().closed.Keys != {}
      requires first.number == S.Least(Abs().closed.Keys) && first.name == SegmentName.Name(first.number)
      modifies this, dir
      ensures Valid() && Abs() == S.DropOldest(old(Abs()))
    {
      SegmentName.ParseName(first.number);
      ListingWithout(dir.files, first.name);
      CurrentIsNoSegment(first.number);
      dir.files := dir.files - {first.name};
      dropped := dropped + 1;
    }

    /** Append lines to the open segment, then rotate and shed as needed; the count of lines written. */
    method Append(lines: seq<Bytes>) returns (written: nat)
      requires Valid()
      modifies this, dir
      ensures Valid() && Abs() == S.AfterAppend(cfg, old(Abs()), lines)
      ensures written == S.CountNonEmpty(lines)
      ensures lines == [] ==> dir.files == old(dir.files) && Abs() == old(Abs())
    {
      if lines == [] { return 0; }
      written := WriteLines(lines);
      if currentLen >= cfg.segmentBytes { Rotate(); }
      EnforceCap();
    }

    method WriteLines(lines: seq<Bytes>) returns (written: nat)
      requires Valid()
      modifies this, dir
      ensures Valid() && Abs() == S.Written(old(Abs()), lines)
      ensures written == S.CountNonEmpty(lines)
    {
      Write(CurrentFile(dir.files));
      written := 0;
      for i := 0 to |lines|
        invariant Valid() && Listing(dir.files) == old(Listing(dir.files)) && CURRENT in dir.files
        invariant nextSeq == old(nextSeq) && dropped == old(dropped)
        invariant CurrentFile(dir.files) + S.Payload(lines[i..]) == old(CurrentFile(dir.files)) + S.Payload(lines)
        invariant written + S.CountNonEmpty(lines[i..]) == S.CountNonEmpty(lines)
      {
        var line := lines[i];
        assert lines[i..][1..] == lines[i + 1..];
        if line == [] { continue; }
        var before := dir.files[CURRENT];
        Write(before + line);
        Write(dir.files[CURRENT] + [NEWLINE]);
        currentLen := currentLen + |line| + 1;
        written := written + 1;
        assert before + line + [NEWLINE] + S.Payload(lines[i + 1..]) == before + S.Payload(lines[i..]);
      }
      assert S.Payload(lines[|lines|..]) == [];
    }

    /** Replace the open file's contents, creating it if need be. */
    method Write(contents: Bytes)
      modifies dir
      ensures Listing(dir.files) == old(Listing(dir.files))
      ensures CURRENT in dir.files && dir.files[CURRENT] == contents
    {
      ListingOfCurrent(dir.files, contents);
      dir.files := dir.files[CURRENT := contents];
    }

    /** The oldest closed segment as a batch, closing the open file first when nothing is closed yet. */
    method NextBatch() returns (batch: Option<(string, Bytes)>)
      requires Valid()
      modifies this, dir
      ensures Valid() && Abs() == S.RotateIfIdle(old(Abs()))
      ensures match S.Served(Abs())
              case None => batch.None?
              case Some(b) => batch == Some((SegmentName.Name(b.id), b.text))
    {
      var oldest := OldestSegment();
      if oldest.None? && currentLen > 0 { Rotate(); }
      oldest := OldestSegment();
      match oldest
      case None => batch := None;
      case Some(segment) =>
        var text := TrimTorn(dir.files[segment.name]);
        batch := Some((segment.name, text));
    }

    /** Drop a partial trailing line, looking backwards for the last newline. */
    static method TrimTorn(raw: Bytes) returns (text: Bytes)
      ensures text == S.Trim(raw)
    {
      var end: nat := |raw|;
      assert raw[..end] == raw;
      while end > 0 && raw[end - 1] != NEWLINE
        invariant end <= |raw| && S.Trim(raw) == S.Trim(raw[..end])
      {
        assert raw[..end][..end - 1] == raw[..end - 1];
        end := end - 1;
      }
      text := raw[..end];
    }

    /** Delete an acknowledged batch; anything but a listed segment's name changes nothing. */
    method Ack(id: string) returns (acked: bool)
      requires Valid()
      modifies dir
      ensures Valid() && Abs() == S.AfterAck(old(Abs()), id)
      ensures acked == S.AckResult(old(Abs()), id)
    {
      if SegmentName.Parse(id).None? { return false; }
      SegmentName.NameParse(id);
      ListingWithout(dir.files, id);
      CurrentIsNoSegment(SegmentName.Parse(id).value);
      acked := id in dir.files;
      dir.files := dir.files - {id};
    }

    /** The byte total and segment count reported by `stats` are the true ones. */
    method Stats() returns (stats: SpoolStats)
      requires Valid()
      ensures stats == SpoolStats(S.Total(Abs()), |Abs().closed.Keys|, dropped)
    {
      var total := currentLen;
      var segments := 0;
      var entries := dir.files;
      while entries.Keys != {}
        invariant forall name | name in entries :: name in dir.files && entries[name] == dir.files[name]
        invariant total + S.Sum(Listing(entries)) == S.Total(Abs())
        invariant segments + |Listing(entries).Keys| == |Listing(dir.files).Keys|
        decreases entries.Keys
      {
        var name :| name in entries;
        ListedName(entries, name);
        ListingWithout(entries, name);
        match SegmentName.Parse(name) {
          case Some(number) =>
            S.SumRemove(Listing(entries), number);
            assert (Listing(entries) - {number}).Keys == Listing(entries).Keys - {number};
            segments := segments + 1;
            total := total + |dir.files[name]|;
          case None =>
        }
        entries := entries - {name};
      }
      assert Listing(entries).Keys == {};
      stats := SpoolStats(total, segments, dropped);
    }
  }

  /** The best candidate among the segments already read. */
  ghost predicate Seen(all: map<nat, Bytes>, left: map<nat, Bytes>, oldest: Option<Segment>) {
    match oldest
    case None => all.Keys <= left.Keys
    case Some(s) =>
      && s.number in all && s.name == SegmentName.Name(s.number) && s.len == |all[s.number]|
      && forall n | n in all && n !in left :: s.number <= n
  }
}

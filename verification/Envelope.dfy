/** Reading envelopes: what pollers build and what the push path accepts. */
module Envelope {
  import opened Json
  import opened JsonProperties
  import opened JsonReread
  import opened JsonRoundTrip
  import opened SortedMap
  import opened Wrappers
  import Utf8

  const MAX_PUSHED_BYTES: nat := 64 * 1024

  predicate ModuleChar(c: char) {
    '0' <= c <= '9' || 'a' <= c <= 'z' || 'A' <= c <= 'Z' || c == '-' || c == '_'
  }

  predicate ValidModule(name: string) {
    1 <= |name| <= 32 && forall i | 0 <= i < |name| :: ModuleChar(name[i])
  }

  /** The members of an envelope, in the order they are inserted. */
  function Members(moduleName: string, device: Json, timestampNs: Int64, values: Json): seq<Entry<Json>> {
    var m0: seq<Entry<Json>> := Insert([], "module", Str(moduleName));
    Insert(Insert(Insert(m0, "device", device), "timestampNs", Int(timestampNs)), "values", values)
  }

  /** `reading`: an envelope for a non-empty object of values. */
  function Reading(moduleName: string, device: Json, timestampNs: Int64, values: Json): Option<string> {
    if values.Obj? && values.members != [] then Some(Print(Obj(Members(moduleName, device, timestampNs, values))))
    else None
  }

  function InsertOptional(m: seq<Entry<Json>>, key: string, value: Option<string>): seq<Entry<Json>> {
    match value
    case Some(s) => Insert(m, key, Str(s))
    case None => m
  }

  /** Tags with an empty key or value are left out; later duplicates win. */
  function TagMap(tags: seq<(string, string)>): seq<Entry<Json>> {
    if tags == [] then []
    else
      var before, tag := TagMap(tags[..|tags| - 1]), tags[|tags| - 1];
      if tag.0 == "" || tag.1 == "" then before else Insert(before, tag.0, Str(tag.1))
  }

  function Device(
    ip: string, name: Option<string>, model: Option<string>, deviceId: Option<string>, tags: seq<(string, string)>
  ): Json {
    var m := Insert([], "ip", Str(ip));
    var m1 := InsertOptional(m, "name", name);
    var m2 := InsertOptional(m1, "model", model);
    var m3 := InsertOptional(m2, "deviceId", deviceId);
    Obj(if TagMap(tags) == [] then m3 else Insert(m3, "tags", Obj(TagMap(tags))))
  }

  /** The checks on a parsed line: the module it names, and the object to store. */
  function Accept(map0: seq<Entry<Json>>, nowNs: Int64): Option<(string, seq<Entry<Json>>)> {
    match Get<Json>(map0, "module")
    case Some(Str(name)) =>
      if !ValidModule(name) then None else
      (match Get<Json>(map0, "values")
       case Some(Obj(values)) =>
         if values == [] then None else
         (match Get<Json>(map0, "timestampNs")
          case Some(Int(_)) => Some((name, map0))
          case None => Some((name, Insert(map0, "timestampNs", Int(nowNs))))
          case _ => None)
       case _ => None)
    case _ => None
  }

  /** `normalize_pushed`: the declared module and the normalized line, or a rejection. */
  function Normalize(read: FloatReader, line: string, nowNs: Int64): Option<(string, string)> {
    if Utf8.Length(line) > MAX_PUSHED_BYTES then None else
    match Parse(read, line)
    case Ok(Obj(members)) =>
      (match Accept(members, nowNs)
       case Some((name, stamped)) => Some((name, Print(Obj(stamped))))
       case None => None)
    case _ => None
  }

  // ----- framing -----

  /** Every envelope a poller builds is a non-empty line without control characters. */
  lemma ReadingIsLine(moduleName: string, device: Json, timestampNs: Int64, values: Json)
    ensures Reading(moduleName, device, timestampNs, values).Some? <==> values.Obj? && values.members != []
    ensures var r := Reading(moduleName, device, timestampNs, values);
            r.Some? ==> Visible(r.value) && r.value != "" && '\n' !in r.value
  {
    var r := Reading(moduleName, device, timestampNs, values);
    if r.Some? {
      PrintVisible(Obj(Members(moduleName, device, timestampNs, values)));
      VisibleNoNewline(r.value);
    }
  }

  lemma VisibleNoNewline(s: string)
    requires Visible(s)
    ensures '\n' !in s
  {
  }

  /** So is every envelope the push path accepts. */
  lemma NormalizedIsLine(read: FloatReader, line: string, nowNs: Int64)
    ensures var r := Normalize(read, line, nowNs);
            r.Some? ==> ValidModule(r.value.0) && Visible(r.value.1) && r.value.1 != "" && '\n' !in r.value.1
  {
    var r := Normalize(read, line, nowNs);
    if r.Some? {
      var members := Parse(read, line).value.members;
      var stamped := Accept(members, nowNs).value.1;
      PrintVisible(Obj(stamped));
      VisibleNoNewline(r.value.1);
    }
  }

  // ----- the pushed line's content -----

  /** What a line must hold: a module name, a non-empty object of values and, if any, an integer timestamp. */
  ghost predicate Holds(m: seq<Entry<Json>>, name: string, values: seq<Entry<Json>>) {
    && Get(m, "module") == Some(Str(name)) && 1 <= |name| <= 32
    && (forall i | 0 <= i < |name| ::
          var c := name[i]; '0' <= c <= '9' || 'a' <= c <= 'z' || 'A' <= c <= 'Z' || c == '-' || c == '_')
    && Get(m, "values") == Some(Obj(values)) && values != []
    && (Get(m, "timestampNs").Some? ==> Get(m, "timestampNs").value.Int?)
  }

  lemma {:induction false} AcceptsExactly(m: seq<Entry<Json>>, nowNs: Int64)
    ensures Accept(m, nowNs).Some? <==> exists name, values :: Holds(m, name, values)
    ensures Accept(m, nowNs).Some? ==> Get(m, "module") == Some(Str(Accept(m, nowNs).value.0))
  {
    if Accept(m, nowNs).Some? { assert Holds(m, Get(m, "module").value.s, Get(m, "values").value.members); }
  }

  /** The checks, in terms of what the line holds. */
  lemma {:induction false} NormalizeAcceptsExactly(read: FloatReader, line: string, nowNs: Int64)
    ensures Normalize(read, line, nowNs).Some? <==>
            && |Utf8.Encode(line)| <= 65536
            && exists m, name, values :: Parse(read, line) == Ok(Obj(m)) && Holds(m, name, values)
  {
    Utf8.LengthIsBytes(line);
    if Parse(read, line).Ok? && Parse(read, line).value.Obj? {
      var m := Parse(read, line).value.members;
      AcceptsExactly(m, nowNs);
      if name, values :| Holds(m, name, values) {
        assert Parse(read, line) == Ok(Obj(m)) && Holds(m, name, values);
      }
    }
  }

  lemma {:induction false} StampKeeps(members: seq<Entry<Json>>, nowNs: Int64, key: string)
    requires Accept(members, nowNs).Some?
    ensures Get(Accept(members, nowNs).value.1, key) ==
            if key == "timestampNs" && Get(members, key).None? then Some(Int(nowNs)) else Get(members, key)
  {
    GetInsert(members, "timestampNs", Int(nowNs), key);
  }

  /** What a lookup comes back as after printing and parsing. */
  function Back(v: Option<Json>): Option<Json> {
    match v
    case Some(x) => Some(Reread(x))
    case None => None
  }

  /**
   An accepted line goes to the module it names, and holds what was sent, plus the clock value when no
   timestamp was sent.
   */
  lemma {:induction false} NormalizedContent(read: FloatReader, line: string, nowNs: Int64, key: string)
    requires Normalize(read, line, nowNs).Some? && ReadsBack(read, Parse(read, line).value)
    ensures var sent, stored := Parse(read, line).value, Parse(read, Normalize(read, line, nowNs).value.1);
            && stored.Ok? && stored.value.Obj?
            && Get(sent.members, "module") == Some(Str(Normalize(read, line, nowNs).value.0))
            && Get(stored.value.members, key) ==
               (if key == "timestampNs" && Get(sent.members, key).None? then Some(Int(nowNs))
                else Back(Get(sent.members, key)))
  {
    var members := Parse(read, line).value.members;
    var stamped := Accept(members, nowNs).value.1;
    StampedReadable(read, line, nowNs);
    ParseOfPrint(read, Obj(stamped));
    GetReread(stamped, key);
    StampKeeps(members, nowNs, key);
  }

  lemma {:induction false} InsertPlain(members: seq<Entry<Json>>, key: string, v: Json)
    requires Plain(Obj(members)) && Plain(v)
    ensures Plain(Obj(Insert(members, key, v)))
  {
    InsertProper(members, key, v);
    InsertValues(members, key, v);
  }

  lemma {:induction false} InsertReadable(read: FloatReader, members: seq<Entry<Json>>, key: string, v: Json)
    requires Readable(read, Obj(members)) && Readable(read, v)
    ensures Readable(read, Obj(Insert(members, key, v)))
  {
    InsertProper(members, key, v);
    InsertReadsBack(read, members, key, v);
  }

  lemma StampedReadable(read: FloatReader, line: string, nowNs: Int64)
    requires Normalize(read, line, nowNs).Some? && ReadsBack(read, Parse(read, line).value)
    ensures Readable(read, Obj(Accept(Parse(read, line).value.members, nowNs).value.1))
  {
    var members := Parse(read, line).value.members;
    ParsedProper(read, line);
    InsertReadable(read, members, "timestampNs", Int(nowNs));
  }

  /** What was accepted once, as it comes back, is accepted unchanged at any later clock value. */
  lemma AcceptAgain(members: seq<Entry<Json>>, nowNs: Int64, laterNs: Int64)
    requires Accept(members, nowNs).Some?
    ensures var (name, stamped) := Accept(members, nowNs).value;
            Accept(RereadMembers(stamped), laterNs) == Some((name, RereadMembers(stamped)))
  {
    var stamped := Accept(members, nowNs).value.1;
    StampKeeps(members, nowNs, "module");
    StampKeeps(members, nowNs, "values");
    StampKeeps(members, nowNs, "timestampNs");
    GetReread(stamped, "module");
    GetReread(stamped, "values");
    GetReread(stamped, "timestampNs");
  }

  /** The timestamp adds no negative zero. */
  lemma {:induction false} StampedZeros(members: seq<Entry<Json>>, nowNs: Int64)
    requires Accept(members, nowNs).Some?
    ensures NegativeZerosIn(Accept(members, nowNs).value.1) == NegativeZerosIn(members)
  {
    if Get(members, "timestampNs").None? {
      NegativeZerosInsert(members, "timestampNs", Int(nowNs));
      assert NegativeZeros(Int(nowNs)) == 0;
    }
  }

  /**
   Normal form: normalizing a normalized line again, at any later clock value, gives the same
   module and line exactly when the line still fits the size limit and no float sent was a
   negative zero.
   */
  lemma NormalizeIsNormalForm(read: FloatReader, line: string, nowNs: Int64, laterNs: Int64)
    requires Normalize(read, line, nowNs).Some? && ReadsBack(read, Parse(read, line).value)
    ensures var r := Normalize(read, line, nowNs);
            Normalize(read, r.value.1, laterNs) == r <==>
            |Utf8.Encode(r.value.1)| <= MAX_PUSHED_BYTES && NegativeZeros(Parse(read, line).value) == 0
  {
    Utf8.LengthIsBytes(Normalize(read, line, nowNs).value.1);
    var members := Parse(read, line).value.members;
    var stamped := Accept(members, nowNs).value.1;
    StampedReadable(read, line, nowNs);
    ParseOfPrint(read, Obj(stamped));
    AcceptAgain(members, nowNs, laterNs);
    StampedZeros(members, nowNs);
    PrintRereadExactly(Obj(stamped));
  }

  // ----- what a built envelope says -----

  lemma {:induction false} MembersAre(moduleName: string, device: Json, timestampNs: Int64, values: Json, key: string)
    ensures Get(Members(moduleName, device, timestampNs, values), key) ==
            if key == "module" then Some(Str(moduleName))
            else if key == "device" then Some(device)
            else if key == "timestampNs" then Some(Int(timestampNs))
            else if key == "values" then Some(values)
            else None
  {
    var m0: seq<Entry<Json>> := Insert([], "module", Str(moduleName));
    var m1 := Insert(m0, "device", device);
    var m2 := Insert(m1, "timestampNs", Int(timestampNs));
    GetInsert(m2, "values", values, key);
    GetInsert(m1, "timestampNs", Int(timestampNs), key);
    GetInsert(m0, "device", device, key);
    GetInsert<Json>([], "module", Str(moduleName), key);
  }

  lemma MembersReadable(read: FloatReader, moduleName: string, device: Json, timestampNs: Int64, values: Json)
    requires Readable(read, device) && Readable(read, values)
    ensures Readable(read, Obj(Members(moduleName, device, timestampNs, values)))
  {
    var m0: seq<Entry<Json>> := Insert([], "module", Str(moduleName));
    var m1 := Insert(m0, "device", device);
    InsertReadable(read, m0, "device", device);
    InsertReadable(read, m1, "timestampNs", Int(timestampNs));
    InsertReadable(read, Insert(m1, "timestampNs", Int(timestampNs)), "values", values);
  }

  /** Parsing a built envelope gives back exactly its four fields. */
  lemma {:induction false} ReadingContent(
    read: FloatReader, moduleName: string, device: Json, timestampNs: Int64, values: Json, key: string
  )
    requires Reading(moduleName, device, timestampNs, values).Some?
    requires Readable(read, device) && Readable(read, values)
    ensures var p := Parse(read, Reading(moduleName, device, timestampNs, values).value);
            && p.Ok? && p.value.Obj?
            && Get(p.value.members, key) ==
               if key == "module" then Some(Str(moduleName))
               else if key == "device" then Some(Reread(device))
               else if key == "timestampNs" then Some(Int(timestampNs))
               else if key == "values" then Some(Reread(values))
               else None
  {
    var m := Members(moduleName, device, timestampNs, values);
    MembersReadable(read, moduleName, device, timestampNs, values);
    ParseOfPrint(read, Obj(m));
    GetReread(m, key);
    MembersAre(moduleName, device, timestampNs, values, key);
  }

  lemma {:induction false} GetInsertOptional(m: seq<Entry<Json>>, key: string, value: Option<string>, other: string)
    ensures Get(InsertOptional(m, key, value), other) ==
            if other == key && value.Some? then Some(Str(value.value)) else Get(m, other)
  {
    if value.Some? { GetInsert(m, key, Str(value.value), other); }
  }

  /** The last usable value given for a tag: neither is empty, and later ones for it are. */
  ghost predicate LastGiven(tags: seq<(string, string)>, key: string, value: string) {
    exists i :: 0 <= i < |tags| && tags[i] == (key, value) && key != "" && value != "" && OnlyEmptyAfter(tags, key, i)
  }

  ghost predicate OnlyEmptyAfter(tags: seq<(string, string)>, key: string, i: nat) {
    forall j | i < j < |tags| :: tags[j].0 == key ==> tags[j].1 == ""
  }

  /** How one more tag changes that. */
  lemma LastGivenStep(tags: seq<(string, string)>, key: string, value: string)
    requires tags != []
    ensures var n := |tags| - 1; var (k, v) := tags[n];
            LastGiven(tags, key, value) <==>
            if k == key && k != "" && v != "" then v == value else LastGiven(tags[..n], key, value)
  {
    var n := |tags| - 1;
    if LastGiven(tags, key, value) {
      var i :| 0 <= i < |tags| && tags[i] == (key, value) && key != "" && value != "" && OnlyEmptyAfter(tags, key, i);
      if i < n { assert tags[..n][i] == (key, value) && OnlyEmptyAfter(tags[..n], key, i); }
    }
    if LastGiven(tags[..n], key, value) {
      var i :| && 0 <= i < n && tags[..n][i] == (key, value) && key != "" && value != ""
               && OnlyEmptyAfter(tags[..n], key, i);
      if tags[n].0 != key || tags[n].1 == "" {
        forall j | i < j < |tags|
          ensures tags[j].0 == key ==> tags[j].1 == ""
        {
          if j < n { assert tags[..n][j] == tags[j]; }
        }
        assert tags[i] == (key, value) && OnlyEmptyAfter(tags, key, i);
      }
    }
    if tags[n] == (key, value) { assert OnlyEmptyAfter(tags, key, n); }
  }

  lemma {:induction false} TagMapExactly(tags: seq<(string, string)>, key: string, value: string)
    ensures Get(TagMap(tags), key) == Some(Str(value)) <==> LastGiven(tags, key, value)
    ensures Get(TagMap(tags), key).Some? ==> Get(TagMap(tags), key).value.Str?
  {
    if tags != [] {
      var tag := tags[|tags| - 1];
      TagMapExactly(tags[..|tags| - 1], key, value);
      LastGivenStep(tags, key, value);
      if tag.0 != "" && tag.1 != "" { GetInsert(TagMap(tags[..|tags| - 1]), tag.0, Str(tag.1), key); }
    }
  }

  /** There is a tag block exactly when some tag has a usable value. */
  lemma {:induction false} AnyTag(tags: seq<(string, string)>)
    ensures TagMap(tags) != [] <==> exists key, value :: LastGiven(tags, key, value)
  {
    if TagMap(tags) != [] {
      var key := TagMap(tags)[0].key;
      TagMapExactly(tags, key, "");
      TagMapExactly(tags, key, TagMap(tags)[0].value.s);
    }
    if key, value :| LastGiven(tags, key, value) {
      TagMapExactly(tags, key, value);
    }
  }

  /** A text field that may be missing. */
  function TextOf(s: Option<string>): Option<Json> {
    if s.Some? then Some(Str(s.value)) else None
  }

  lemma {:induction false} DeviceAt(
    ip: string, name: Option<string>, model: Option<string>, deviceId: Option<string>, tags: seq<(string, string)>,
    key: string
  )
    ensures Device(ip, name, model, deviceId, tags).Obj?
    ensures Get(Device(ip, name, model, deviceId, tags).members, key) ==
            if key == "tags" && TagMap(tags) != [] then Some(Obj(TagMap(tags)))
            else if key == "ip" then Some(Str(ip))
            else if key == "name" then TextOf(name)
            else if key == "model" then TextOf(model)
            else if key == "deviceId" then TextOf(deviceId)
            else None
  {
    var m: seq<Entry<Json>> := Insert([], "ip", Str(ip));
    var m1 := InsertOptional(m, "name", name);
    var m2 := InsertOptional(m1, "model", model);
    var m3 := InsertOptional(m2, "deviceId", deviceId);
    GetInsert<Json>([], "ip", Str(ip), key);
    GetInsertOptional(m, "name", name, key);
    GetInsertOptional(m1, "model", model, key);
    GetInsertOptional(m2, "deviceId", deviceId, key);
    if TagMap(tags) != [] { GetInsert(m3, "tags", Obj(TagMap(tags)), key); }
  }

  /**
   A device block has its address always and the other fields exactly when they are known; it has
   tags exactly when one is usable, each with the last usable value given for it.
   */
  lemma DeviceContent(
    ip: string, name: Option<string>, model: Option<string>, deviceId: Option<string>, tags: seq<(string, string)>,
    key: string, tag: string, value: string
  )
    ensures var d := Device(ip, name, model, deviceId, tags);
            && Member(d, "ip") == Some(Str(ip)) && Member(d, "name") == TextOf(name)
            && Member(d, "model") == TextOf(model) && Member(d, "deviceId") == TextOf(deviceId)
            && (key !in ["ip", "name", "model", "deviceId", "tags"] ==> Member(d, key) == None)
    ensures var given := Member(Device(ip, name, model, deviceId, tags), "tags");
            && (given.Some? <==> exists k, v :: LastGiven(tags, k, v))
            && (given.Some? ==>
                  given.value.Obj? && (Member(given.value, tag) == Some(Str(value)) <==> LastGiven(tags, tag, value)))
  {
    DeviceAt(ip, name, model, deviceId, tags, "ip");
    DeviceAt(ip, name, model, deviceId, tags, "name");
    DeviceAt(ip, name, model, deviceId, tags, "model");
    DeviceAt(ip, name, model, deviceId, tags, "deviceId");
    DeviceAt(ip, name, model, deviceId, tags, key);
    DeviceAt(ip, name, model, deviceId, tags, "tags");
    AnyTag(tags);
    TagMapExactly(tags, tag, value);
  }

  lemma {:induction false} TagsPlain(tags: seq<(string, string)>)
    ensures Plain(Obj(TagMap(tags)))
  {
    if tags != [] {
      var tag := tags[|tags| - 1];
      TagsPlain(tags[..|tags| - 1]);
      if tag.0 != "" && tag.1 != "" { InsertPlain(TagMap(tags[..|tags| - 1]), tag.0, Str(tag.1)); }
    }
  }

  lemma InsertOptionalPlain(m: seq<Entry<Json>>, key: string, value: Option<string>)
    requires Plain(Obj(m))
    ensures Plain(Obj(InsertOptional(m, key, value)))
  {
    if value.Some? { InsertPlain(m, key, Str(value.value)); }
  }

  /** And it is written and read back unchanged. */
  lemma DeviceReadsBack(
    read: FloatReader, ip: string, name: Option<string>, model: Option<string>, deviceId: Option<string>,
    tags: seq<(string, string)>
  )
    ensures var d := Device(ip, name, model, deviceId, tags); Readable(read, d) && Reread(d) == d
  {
    var m: seq<Entry<Json>> := Insert([], "ip", Str(ip));
    var m1 := InsertOptional(m, "name", name);
    var m2 := InsertOptional(m1, "model", model);
    var m3 := InsertOptional(m2, "deviceId", deviceId);
    InsertPlain([], "ip", Str(ip));
    InsertOptionalPlain(m, "name", name);
    InsertOptionalPlain(m1, "model", model);
    InsertOptionalPlain(m2, "deviceId", deviceId);
    TagsPlain(tags);
    if TagMap(tags) != [] { InsertPlain(m3, "tags", Obj(TagMap(tags))); }
    FloatFreeReadsBack(read, Device(ip, name, model, deviceId, tags));
    RereadFloatFree(Device(ip, name, model, deviceId, tags));
  }
}

/** The persisted device inventory: `merge_inventory`, and what saving and loading keep. */
module Inventory {
  import opened Json
  import opened JsonCursor
  import opened JsonRoundTrip
  import opened SortedMap
  import opened Wrappers
  import Envelope
  import Ipv4

  /** `i64::MAX`, two to the sixty-third less one. */
  const I64_MAX: nat := 0x7fff_ffff_ffff_ffff

  datatype Services = Services(avTransport: Option<string>, renderingControl: Option<string>, playQueue: Option<string>)

  /** `u16`. */
  type Port = n: nat | n < 0x1_0000

  /** `u64`. */
  type Seconds = n: nat | n < 0x1_0000_0000_0000_0000

  datatype Device = Device(
    id: string, udn: string, ip: Ipv4.Address, name: string, model: Option<string>, firmware: Option<string>,
    descriptionPort: Port, descriptionPath: string, services: Services, lastSeen: Seconds, reachable: bool)

  // ----- insertion in turn -----

  datatype Field = Field(key: string, value: Option<Json>)

  /** Insert the fields that have a value, first to last. */
  function InsertFields(fields: seq<Field>): seq<Entry<Json>> {
    if fields == [] then []
    else
      var before, last := InsertFields(fields[..|fields| - 1]), fields[|fields| - 1];
      if last.value.Some? then Insert(before, last.key, last.value.value) else before
  }

  ghost predicate DistinctKeys(fields: seq<Field>) {
    forall i, j | 0 <= i < j < |fields| :: fields[i].key != fields[j].key
  }

  lemma {:induction false} FieldAbsent(fields: seq<Field>, key: string)
    requires forall i | 0 <= i < |fields| :: fields[i].key != key
    ensures Get(InsertFields(fields), key) == None
  {
    if fields != [] {
      var front, last := fields[..|fields| - 1], fields[|fields| - 1];
      FieldAbsent(front, key);
      if last.value.Some? { GetInsert(InsertFields(front), last.key, last.value.value, key); }
    }
  }

  /** With distinct keys, each is looked up as it was given. */
  lemma {:induction false} FieldAt(fields: seq<Field>, k: nat)
    requires DistinctKeys(fields) && k < |fields|
    ensures Get(InsertFields(fields), fields[k].key) == fields[k].value
  {
    var front, last := fields[..|fields| - 1], fields[|fields| - 1];
    if last.value.Some? { GetInsert(InsertFields(front), last.key, last.value.value, fields[k].key); }
    if k == |fields| - 1 {
      FieldAbsent(front, last.key);
    } else {
      FieldAt(front, k);
    }
  }

  lemma {:induction false} FieldsPlain(fields: seq<Field>)
    requires forall i | 0 <= i < |fields| && fields[i].value.Some? :: Plain(fields[i].value.value)
    ensures Plain(Obj(InsertFields(fields)))
  {
    if fields != [] {
      var front, last := fields[..|fields| - 1], fields[|fields| - 1];
      FieldsPlain(front);
      if last.value.Some? { Envelope.InsertPlain(InsertFields(front), last.key, last.value.value); }
    }
  }

  // ----- one device -----

  function Text(s: Option<string>): Option<Json> {
    match s
    case Some(x) => Some(Str(x))
    case None => None
  }

  function ServiceFields(s: Services): seq<Field> {
    [Field("avTransport", Text(s.avTransport)), Field("renderingControl", Text(s.renderingControl)),
     Field("playQueue", Text(s.playQueue))]
  }

  /** A time beyond `i64` is written as the greatest `i64`. */
  function Clamped(t: Seconds): Int64 {
    if t <= I64_MAX then t else I64_MAX
  }

  function DeviceFields(d: Device): seq<Field> {
    [Field("id", Some(Str(d.id))), Field("udn", Some(Str(d.udn))), Field("ip", Some(Str(Ipv4.Print(d.ip)))),
     Field("name", Some(Str(d.name))), Field("model", Text(d.model)), Field("firmware", Text(d.firmware)),
     Field("descriptionPort", Some(Int(d.descriptionPort))), Field("descriptionPath", Some(Str(d.descriptionPath))),
     Field("services", Some(Obj(InsertFields(ServiceFields(d.services))))),
     Field("lastSeenSeconds", Some(Int(Clamped(d.lastSeen)))), Field("reachable", Some(Bool(d.reachable)))]
  }

  /** `to_json`. */
  function ToJson(d: Device): Json {
    Obj(InsertFields(DeviceFields(d)))
  }

  function AddressMember(v: Json, key: string): Option<Ipv4.Address> {
    var s := StringMember(v, key);
    if s.Some? then Ipv4.Parse(s.value) else None
  }

  function ServicesOf(v: Json): Services {
    Services(StringMember(v, "avTransport"), StringMember(v, "renderingControl"), StringMember(v, "playQueue"))
  }

  /** `from_json`. Optional texts may be missing or of another type; the rest must be there. */
  function FromJson(v: Json): Option<Device> {
    var services, ip, port := Member(v, "services"), AddressMember(v, "ip"), IntMember(v, "descriptionPort");
    var id, udn, name := StringMember(v, "id"), StringMember(v, "udn"), StringMember(v, "name");
    var path, seen := StringMember(v, "descriptionPath"), IntMember(v, "lastSeenSeconds");
    if services.None? || ip.None? || port.None? || id.None? || udn.None? || name.None? || path.None? || seen.None?
       || !(0 <= port.value < 0x1_0000) || seen.value < 0 then None
    else
      Some(Device(id.value, udn.value, ip.value, name.value, StringMember(v, "model"), StringMember(v, "firmware"),
                  port.value, path.value,
                  ServicesOf(services.value), seen.value, false))
  }

  /** What a device is after being written and read back. */
  function Restored(d: Device): Device {
    d.(reachable := false, lastSeen := Clamped(d.lastSeen))
  }

  lemma ServicesBack(s: Services)
    ensures ServicesOf(Obj(InsertFields(ServiceFields(s)))) == s
  {
    FieldAt(ServiceFields(s), 0);
    FieldAt(ServiceFields(s), 1);
    FieldAt(ServiceFields(s), 2);
  }

  function DeviceKeyNames(): seq<string> {
    ["id", "udn", "ip", "name", "model", "firmware", "descriptionPort", "descriptionPath", "services",
     "lastSeenSeconds", "reachable"]
  }

  lemma KeysDiffer()
    ensures forall i, j | 0 <= i < j < 11 :: DeviceKeyNames()[i] != DeviceKeyNames()[j]
  {
    assert |"id"| == 2 && |"udn"| == 3 && |"name"| == 4 && |"model"| == 5 && |"firmware"| == 8;
  }

  lemma DeviceKeys(d: Device)
    ensures DistinctKeys(DeviceFields(d))
  {
    KeysDiffer();
    assert forall i | 0 <= i < 11 :: DeviceFields(d)[i].key == DeviceKeyNames()[i];
  }

  /** The members of a written device that identify it. */
  ghost predicate HasIdentity(m: seq<Entry<Json>>, d: Device, ipText: string) {
    && Get(m, "id") == Some(Str(d.id)) && Get(m, "udn") == Some(Str(d.udn))
    && Get(m, "ip") == Some(Str(ipText)) && Get(m, "name") == Some(Str(d.name))
    && Get(m, "model") == Text(d.model) && Get(m, "firmware") == Text(d.firmware)
  }

  /** The members that say how to reach it, and when it was last seen. */
  ghost predicate HasEndpoint(m: seq<Entry<Json>>, d: Device, services: Json) {
    && Get(m, "descriptionPort") == Some(Int(d.descriptionPort))
    && Get(m, "descriptionPath") == Some(Str(d.descriptionPath))
    && Get(m, "services") == Some(services)
    && Get(m, "lastSeenSeconds") == Some(Int(Clamped(d.lastSeen)))
  }

  lemma WrittenIdentity(d: Device)
    ensures HasIdentity(InsertFields(DeviceFields(d)), d, Ipv4.Print(d.ip))
  {
    DeviceKeys(d);
    FieldAt(DeviceFields(d), 0);
    FieldAt(DeviceFields(d), 1);
    FieldAt(DeviceFields(d), 2);
    FieldAt(DeviceFields(d), 3);
    FieldAt(DeviceFields(d), 4);
    FieldAt(DeviceFields(d), 5);
  }

  lemma WrittenEndpoint(d: Device)
    ensures HasEndpoint(InsertFields(DeviceFields(d)), d, Obj(InsertFields(ServiceFields(d.services))))
  {
    DeviceKeys(d);
    FieldAt(DeviceFields(d), 6);
    FieldAt(DeviceFields(d), 7);
    FieldAt(DeviceFields(d), 8);
    FieldAt(DeviceFields(d), 9);
  }

  lemma ReadMembers(m: seq<Entry<Json>>, d: Device, ipText: string, services: Json)
    requires HasIdentity(m, d, ipText) && HasEndpoint(m, d, services)
    requires Ipv4.Parse(ipText) == Some(d.ip) && ServicesOf(services) == d.services
    ensures FromJson(Obj(m)) == Some(Restored(d))
  {
    IdentityRead(m, d, ipText);
    EndpointRead(m, d, services);
  }

  lemma IdentityRead(m: seq<Entry<Json>>, d: Device, ipText: string)
    requires HasIdentity(m, d, ipText)
    ensures var v := Obj(m);
            && StringMember(v, "id") == Some(d.id) && StringMember(v, "udn") == Some(d.udn)
            && StringMember(v, "ip") == Some(ipText) && StringMember(v, "name") == Some(d.name)
            && StringMember(v, "model") == d.model && StringMember(v, "firmware") == d.firmware
  {
  }

  lemma EndpointRead(m: seq<Entry<Json>>, d: Device, services: Json)
    requires HasEndpoint(m, d, services)
    ensures var v := Obj(m);
            && IntMember(v, "descriptionPort") == Some(d.descriptionPort)
            && StringMember(v, "descriptionPath") == Some(d.descriptionPath)
            && Member(v, "services") == Some(services) && IntMember(v, "lastSeenSeconds") == Some(Clamped(d.lastSeen))
  {
  }

  /** The keys a device is written under; texts that are not known are left out. */
  lemma WrittenMembers(d: Device)
    ensures var v := ToJson(d);
            && Member(v, "id") == Some(Str(d.id)) && Member(v, "udn") == Some(Str(d.udn))
            && Member(v, "ip") == Some(Str(Ipv4.Print(d.ip))) && Member(v, "name") == Some(Str(d.name))
            && Member(v, "model") == Envelope.TextOf(d.model) && Member(v, "firmware") == Envelope.TextOf(d.firmware)
            && Member(v, "descriptionPort") == Some(Int(d.descriptionPort))
            && Member(v, "descriptionPath") == Some(Str(d.descriptionPath))
            && Member(v, "lastSeenSeconds") == Some(Int(if d.lastSeen <= I64_MAX then d.lastSeen else I64_MAX))
            && Member(v, "reachable") == Some(Bool(d.reachable))
    ensures Member(ToJson(d), "services").Some?
    ensures var s := Member(ToJson(d), "services").value;
            && s.Obj? && Member(s, "avTransport") == Envelope.TextOf(d.services.avTransport)
            && Member(s, "renderingControl") == Envelope.TextOf(d.services.renderingControl)
            && Member(s, "playQueue") == Envelope.TextOf(d.services.playQueue)
  {
    WrittenIdentity(d);
    WrittenEndpoint(d);
    DeviceKeys(d);
    FieldAt(DeviceFields(d), 10);
    FieldAt(ServiceFields(d.services), 0);
    FieldAt(ServiceFields(d.services), 1);
    FieldAt(ServiceFields(d.services), 2);
  }

  /** A text member, or nothing when it is missing or of another type. */
  predicate IsText(v: Json, key: string, s: Option<string>) {
    if s.Some? then Member(v, key) == Some(Str(s.value)) else Member(v, key).None? || !Member(v, key).value.Str?
  }

  /** What a device must have to be read, and where each of its parts comes from. */
  lemma FromJsonExactly(v: Json, d: Device)
    ensures FromJson(v) == Some(d) <==>
            && IsText(v, "id", Some(d.id)) && IsText(v, "udn", Some(d.udn))
            && Member(v, "ip") == Some(Str(Ipv4.Print(d.ip))) && IsText(v, "name", Some(d.name))
            && IsText(v, "model", d.model) && IsText(v, "firmware", d.firmware)
            && Member(v, "descriptionPort") == Some(Int(d.descriptionPort))
            && IsText(v, "descriptionPath", Some(d.descriptionPath))
            && Member(v, "services").Some?
            && IsText(Member(v, "services").value, "avTransport", d.services.avTransport)
            && IsText(Member(v, "services").value, "renderingControl", d.services.renderingControl)
            && IsText(Member(v, "services").value, "playQueue", d.services.playQueue)
            && d.lastSeen <= I64_MAX && Member(v, "lastSeenSeconds") == Some(Int(d.lastSeen)) && !d.reachable
  {
    PartsRead(v, d);
    TextIs(v, "id");
    TextIs(v, "udn");
    TextIs(v, "name");
    TextIs(v, "model");
    TextIs(v, "firmware");
    TextIs(v, "descriptionPath");
    AddressIs(v, "ip", d.ip);
    NumberIs(v, "descriptionPort");
    NumberIs(v, "lastSeenSeconds");
    if Member(v, "services").Some? {
      var s := Member(v, "services").value;
      TextIs(s, "avTransport");
      TextIs(s, "renderingControl");
      TextIs(s, "playQueue");
    }
  }

  lemma PartsRead(v: Json, d: Device)
    ensures FromJson(v) == Some(d) <==>
            && StringMember(v, "id") == Some(d.id) && StringMember(v, "udn") == Some(d.udn)
            && AddressMember(v, "ip") == Some(d.ip) && StringMember(v, "name") == Some(d.name)
            && StringMember(v, "model") == d.model && StringMember(v, "firmware") == d.firmware
            && IntMember(v, "descriptionPort") == Some(d.descriptionPort)
            && StringMember(v, "descriptionPath") == Some(d.descriptionPath)
            && Member(v, "services").Some? && ServicesOf(Member(v, "services").value) == d.services
            && IntMember(v, "lastSeenSeconds").Some? && IntMember(v, "lastSeenSeconds").value == d.lastSeen
            && !d.reachable
  {
  }

  lemma TextIs(v: Json, key: string)
    ensures forall s :: IsText(v, key, s) <==> StringMember(v, key) == s
  {
  }

  lemma NumberIs(v: Json, key: string)
    ensures forall i: Int64 :: Member(v, key) == Some(Int(i)) <==> IntMember(v, key) == Some(i)
  {
  }

  lemma AddressIs(v: Json, key: string, ip: Ipv4.Address)
    ensures AddressMember(v, key) == Some(ip) <==> Member(v, key) == Some(Str(Ipv4.Print(ip)))
  {
    var s := StringMember(v, key);
    if s.Some? { Ipv4.ParsesExactly(s.value, ip); }
  }

  /** Reading a written device gives it back, unreachable, its time clamped to `i64`. */
  lemma FromToJson(d: Device)
    ensures FromJson(ToJson(d)) == Some(Restored(d))
    ensures Restored(d) == d.(reachable := false, lastSeen := if d.lastSeen <= I64_MAX then d.lastSeen else I64_MAX)
  {
    WrittenIdentity(d);
    WrittenEndpoint(d);
    ServicesBack(d.services);
    Ipv4.ParsesExactly(Ipv4.Print(d.ip), d.ip);
    ReadMembers(InsertFields(DeviceFields(d)), d, Ipv4.Print(d.ip), Obj(InsertFields(ServiceFields(d.services))));
  }

  // ----- the file -----

  datatype LoadError = NotJson(cause: ParseError) | NotArray | InvalidDevice

  function ToJsonAll(devices: seq<Device>): (items: seq<Json>)
    ensures |items| == |devices|
  {
    if devices == [] then [] else [ToJson(devices[0])] + ToJsonAll(devices[1..])
  }

  /** The text `save_inventory` writes. */
  function Saved(devices: seq<Device>): string {
    Print(Arr(ToJsonAll(devices)))
  }

  /** One invalid device refuses the whole file. */
  function FromJsonAll(items: seq<Json>): Option<seq<Device>> {
    if items == [] then Some([])
    else
      var first, rest := FromJson(items[0]), FromJsonAll(items[1..]);
      if first.None? || rest.None? then None else Some([first.value] + rest.value)
  }

  /** What `load_inventory` makes of a file's text. */
  function Loaded(read: FloatReader, text: string): Result<seq<Device>, LoadError> {
    match Parse(read, text)
    case Err(e) => Err(NotJson(e))
    case Ok(v) =>
      if !v.Arr? then Err(NotArray)
      else
        match FromJsonAll(v.items)
        case None => Err(InvalidDevice)
        case Some(devices) => Ok(devices)
  }

  function RestoredAll(devices: seq<Device>): (r: seq<Device>)
    ensures |r| == |devices| && forall i | 0 <= i < |devices| :: r[i] == Restored(devices[i])
  {
    if devices == [] then [] else [Restored(devices[0])] + RestoredAll(devices[1..])
  }

  lemma {:induction false} FromToJsonAll(devices: seq<Device>)
    ensures FromJsonAll(ToJsonAll(devices)) == Some(RestoredAll(devices))
  {
    if devices != [] {
      FromToJson(devices[0]);
      FromToJsonAll(devices[1..]);
      assert ToJsonAll(devices)[1..] == ToJsonAll(devices[1..]);
    }
  }

  lemma DevicePlain(d: Device)
    ensures Plain(ToJson(d))
  {
    FieldsPlain(ServiceFields(d.services));
    FieldsPlain(DeviceFields(d));
  }

  lemma {:induction false} DevicesPlain(devices: seq<Device>)
    ensures AllPlain(ToJsonAll(devices))
  {
    if devices != [] {
      DevicePlain(devices[0]);
      DevicesPlain(devices[1..]);
    }
  }

  /** Saving and loading gives every device back in order, unreachable and with its time clamped. */
  lemma {:induction false} LoadOfSaved(read: FloatReader, devices: seq<Device>)
    ensures Loaded(read, Saved(devices)) == Ok(RestoredAll(devices))
  {
    DevicesPlain(devices);
    RoundTrip(read, Arr(ToJsonAll(devices)));
    FromToJsonAll(devices);
  }

  /** The same devices, all unreachable. */
  function UnreachedAll(devices: seq<Device>): (r: seq<Device>)
    ensures |r| == |devices| && forall i | 0 <= i < |devices| :: r[i] == devices[i].(reachable := false)
  {
    if devices == [] then [] else [devices[0].(reachable := false)] + UnreachedAll(devices[1..])
  }

  lemma ClampKeeps(d: Device)
    ensures Restored(d) == d.(reachable := false) <==> d.lastSeen <= I64_MAX
  {
  }

  lemma {:induction false} RestoredExactlyWhen(devices: seq<Device>)
    ensures RestoredAll(devices) == UnreachedAll(devices) <==>
            forall i | 0 <= i < |devices| :: devices[i].lastSeen <= I64_MAX
  {
    var r, u := RestoredAll(devices), UnreachedAll(devices);
    forall i | 0 <= i < |devices|
      ensures r[i] == u[i] <==> devices[i].lastSeen <= I64_MAX
    {
      ClampKeeps(devices[i]);
    }
    assert r == u <==> forall i | 0 <= i < |devices| :: r[i] == u[i];
  }

  /** Nothing but reachability is lost exactly when every time fits an `i64`. */
  lemma {:induction false} LoadsBackExactlyWhen(read: FloatReader, devices: seq<Device>)
    ensures Loaded(read, Saved(devices)) == Ok(UnreachedAll(devices)) <==>
            forall i | 0 <= i < |devices| :: devices[i].lastSeen <= I64_MAX
  {
    LoadOfSaved(read, devices);
    RestoredExactlyWhen(devices);
  }

  lemma ReadIsRestored(v: Json)
    requires FromJson(v).Some?
    ensures Restored(FromJson(v).value) == FromJson(v).value
  {
  }

  lemma {:induction false} ReadAllRestored(items: seq<Json>)
    requires FromJsonAll(items).Some?
    ensures RestoredAll(FromJsonAll(items).value) == FromJsonAll(items).value
  {
    if items != [] {
      ReadIsRestored(items[0]);
      ReadAllRestored(items[1..]);
      var first, rest := FromJson(items[0]).value, FromJsonAll(items[1..]).value;
      assert ([first] + rest)[1..] == rest;
    }
  }

  /** Whatever text a list was loaded from, saving and loading it gives the same list. */
  lemma LoadedIsStable(read: FloatReader, text: string)
    requires Loaded(read, text).Ok?
    ensures Loaded(read, Saved(Loaded(read, text).value)) == Loaded(read, text)
  {
    ReadAllRestored(Parse(read, text).value.items);
    LoadOfSaved(read, Loaded(read, text).value);
  }

  // ----- merging -----

  type DeviceMap = seq<Entry<Device>>

  /** Insert each device under its id, first to last. */
  function InsertAll(m: DeviceMap, devices: seq<Device>): DeviceMap {
    if devices == [] then m
    else
      var last := devices[|devices| - 1];
      Insert(InsertAll(m, devices[..|devices| - 1]), last.id, last)
  }

  function Values(m: DeviceMap): (devices: seq<Device>)
    ensures |devices| == |m| && forall i | 0 <= i < |m| :: devices[i] == m[i].value
  {
    if m == [] then [] else [m[0].value] + Values(m[1..])
  }

  function MergedMap(previous: seq<Device>, discovered: seq<Device>): DeviceMap {
    InsertAll(InsertAll([], UnreachedAll(previous)), discovered)
  }

  function Merged(previous: seq<Device>, discovered: seq<Device>): seq<Device> {
    Values(MergedMap(previous, discovered))
  }

  /** The last device of a list with an id. */
  function Latest(devices: seq<Device>, id: string): Option<Device> {
    if devices == [] then None
    else if devices[|devices| - 1].id == id then Some(devices[|devices| - 1])
    else Latest(devices[..|devices| - 1], id)
  }

  lemma {:induction false} GetInsertAll(m: DeviceMap, devices: seq<Device>, id: string)
    ensures Get(InsertAll(m, devices), id) == if Latest(devices, id).Some? then Latest(devices, id) else Get(m, id)
  {
    if devices != [] {
      var front, last := devices[..|devices| - 1], devices[|devices| - 1];
      GetInsertAll(m, front, id);
      GetInsert(InsertAll(m, front), last.id, last, id);
    }
  }

  ghost predicate Keyed(m: DeviceMap) {
    Sorted(m) && forall i | 0 <= i < |m| :: m[i].value.id == m[i].key
  }

  lemma {:induction false} InsertKeyed(m: DeviceMap, d: Device)
    requires Keyed(m)
    ensures Keyed(Insert(m, d.id, d))
  {
    InsertSorted(m, d.id, d);
    InsertKeys(m, d);
  }

  lemma {:induction false} InsertKeys(m: DeviceMap, d: Device)
    requires forall i | 0 <= i < |m| :: m[i].value.id == m[i].key
    ensures var r := Insert(m, d.id, d); forall i | 0 <= i < |r| :: r[i].value.id == r[i].key
  {
    var r := Insert(m, d.id, d);
    if m != [] && m[0].key != d.id && !Less(d.id, m[0].key) {
      var tail := m[1..];
      assert forall i | 0 <= i < |tail| :: tail[i] == m[i + 1];
      InsertKeys(tail, d);
      assert forall i | 1 <= i < |r| :: r[i] == Insert(tail, d.id, d)[i - 1];
    } else if m != [] && m[0].key == d.id {
      assert forall i | 1 <= i < |r| :: r[i] == m[i];
    } else {
      assert forall i | 1 <= i < |r| :: r[i] == m[i - 1];
    }
  }

  lemma {:induction false} InsertAllKeyed(m: DeviceMap, devices: seq<Device>)
    requires Keyed(m)
    ensures Keyed(InsertAll(m, devices))
  {
    if devices != [] {
      InsertAllKeyed(m, devices[..|devices| - 1]);
      InsertKeyed(InsertAll(m, devices[..|devices| - 1]), devices[|devices| - 1]);
    }
  }

  lemma {:induction false} LatestUnreached(devices: seq<Device>, id: string)
    ensures Latest(UnreachedAll(devices), id) ==
            if Latest(devices, id).Some? then Some(Latest(devices, id).value.(reachable := false)) else None
  {
    if devices != [] {
      var n := |devices| - 1;
      assert UnreachedAll(devices)[..n] == UnreachedAll(devices[..n]);
      LatestUnreached(devices[..n], id);
    }
  }

  /** The newest entry under an id: a discovered one, or the previous one made unreachable. */
  function Newest(previous: seq<Device>, discovered: seq<Device>, id: string): Option<Device> {
    if Latest(discovered, id).Some? then Latest(discovered, id)
    else if Latest(previous, id).Some? then Some(Latest(previous, id).value.(reachable := false))
    else None
  }

  lemma {:induction false} GetMerged(previous: seq<Device>, discovered: seq<Device>, id: string)
    ensures Get(MergedMap(previous, discovered), id) == Newest(previous, discovered, id)
    ensures Keyed(MergedMap(previous, discovered))
  {
    var unreached := UnreachedAll(previous);
    InsertAllKeyed([], unreached);
    InsertAllKeyed(InsertAll([], unreached), discovered);
    GetInsertAll(InsertAll([], unreached), discovered, id);
    GetInsertAll([], unreached, id);
    LatestUnreached(previous, id);
  }

  lemma {:induction false} ValuesSnoc(front: DeviceMap, last: Entry<Device>)
    ensures Values(front + [last]) == Values(front) + [last.value]
  {
    var m := front + [last];
    assert forall i | 0 <= i < |front| :: Values(m)[i] == m[i].value == front[i].value == Values(front)[i];
    assert Values(m)[|front|] == m[|front|].value;
  }

  lemma {:induction false} LatestIsGet(m: DeviceMap, id: string)
    requires Keyed(m)
    ensures Latest(Values(m), id) == Get(m, id)
  {
    if m != [] {
      var front, last := m[..|m| - 1], m[|m| - 1];
      assert m == front + [last];
      ValuesSnoc(front, last);
      assert Keyed(front) by {
        assert forall i | 0 <= i < |front| :: front[i] == m[i];
      }
      LatestIsGet(front, id);
      GetSnoc(front, last, id);
      if id == last.key { GetBelow(front, id); }
    }
  }

  ghost predicate IdsIncrease(devices: seq<Device>) {
    forall i, j | 0 <= i < j < |devices| :: Less(devices[i].id, devices[j].id)
  }

  /**
   The merged list has each id once, in order; it has the ids of either list and no other, and under
   each the newest entry.
   */
  lemma MergedIsUnion(previous: seq<Device>, discovered: seq<Device>)
    ensures IdsIncrease(Merged(previous, discovered))
    ensures forall id :: Latest(Merged(previous, discovered), id) == Newest(previous, discovered, id)
  {
    var m := MergedMap(previous, discovered);
    GetMerged(previous, discovered, "");
    forall id
      ensures Latest(Values(m), id) == Newest(previous, discovered, id)
    {
      GetMerged(previous, discovered, id);
      LatestIsGet(m, id);
    }
  }

  /** The device is in the list, and no later one has its id. */
  ghost predicate LastWithId(devices: seq<Device>, d: Device) {
    exists i :: 0 <= i < |devices| && devices[i] == d && NoneAfter(devices, d.id, i)
  }

  ghost predicate NoneAfter(devices: seq<Device>, id: string, i: nat) {
    forall j | i < j < |devices| :: devices[j].id != id
  }

  lemma {:induction false} LatestExactly(devices: seq<Device>, d: Device)
    ensures Latest(devices, d.id) == Some(d) <==> LastWithId(devices, d)
  {
    if devices != [] {
      var n := |devices| - 1;
      if devices[n].id == d.id {
        if i :| 0 <= i < |devices| && devices[i] == d && NoneAfter(devices, d.id, i) {
          assert i >= n;
        }
        if devices[n] == d { assert NoneAfter(devices, d.id, n); }
      } else {
        LatestExactly(devices[..n], d);
        LastInFront(devices, d);
      }
    }
  }

  lemma {:induction false} LatestMissing(devices: seq<Device>, id: string)
    ensures Latest(devices, id).None? <==> Missing(devices, id)
  {
    if devices != [] {
      var n := |devices| - 1;
      LatestMissing(devices[..n], id);
      assert forall i | 0 <= i < n :: devices[..n][i] == devices[i];
    }
  }

  lemma LastInFront(devices: seq<Device>, d: Device)
    requires devices != [] && devices[|devices| - 1].id != d.id
    ensures LastWithId(devices, d) <==> LastWithId(devices[..|devices| - 1], d)
  {
    var n := |devices| - 1;
    if i :| 0 <= i < |devices| && devices[i] == d && NoneAfter(devices, d.id, i) {
      assert devices[..n][i] == d && NoneAfter(devices[..n], d.id, i);
    }
    if i :| 0 <= i < n && devices[..n][i] == d && NoneAfter(devices[..n], d.id, i) {
      forall j | i < j < |devices|
        ensures devices[j].id != d.id
      {
        if j < n { assert devices[..n][j] == devices[j]; }
      }
      assert devices[i] == d && NoneAfter(devices, d.id, i);
    }
  }

  /** No device of the list has this id. */
  predicate Missing(devices: seq<Device>, id: string) {
    forall i | 0 <= i < |devices| :: devices[i].id != id
  }

  /**
   What is in a merged list, and nothing else: the last device found under each id, and of each id that
   was not found the last device known, made unreachable.
   */
  lemma MergedExactly(previous: seq<Device>, discovered: seq<Device>, d: Device)
    ensures d in Merged(previous, discovered) <==>
            || LastWithId(discovered, d)
            || exists p :: LastWithId(previous, p) && Missing(discovered, p.id) && d == p.(reachable := false)
  {
    var m := Merged(previous, discovered);
    MergedIsUnion(previous, discovered);
    NewestExactly(previous, discovered, d);
    LatestIn(m, d.id);
    if d in m {
      var i :| 0 <= i < |m| && m[i] == d;
      MergedAt(previous, discovered, i);
    }
  }

  lemma NewestExactly(previous: seq<Device>, discovered: seq<Device>, d: Device)
    ensures Newest(previous, discovered, d.id) == Some(d) <==>
            || LastWithId(discovered, d)
            || exists p :: LastWithId(previous, p) && Missing(discovered, p.id) && d == p.(reachable := false)
  {
    LatestExactly(discovered, d);
    LatestMissing(discovered, d.id);
    if Newest(previous, discovered, d.id) == Some(d) && Latest(discovered, d.id).None? {
      var p := Latest(previous, d.id).value;
      LatestIn(previous, d.id);
      LatestExactly(previous, p);
      assert LastWithId(previous, p) && Missing(discovered, p.id);
    }
    if p :| LastWithId(previous, p) && Missing(discovered, p.id) && d == p.(reachable := false) {
      LatestExactly(previous, p);
    }
  }

  /** Two merges that agree on the newest entry of every id are the same. */
  lemma MergedSame(p: seq<Device>, c: seq<Device>, q: seq<Device>, d: seq<Device>)
    requires forall id :: Newest(p, c, id) == Newest(q, d, id)
    ensures Merged(p, c) == Merged(q, d)
  {
    forall id
      ensures Get(MergedMap(p, c), id) == Get(MergedMap(q, d), id)
    {
      GetMerged(p, c, id);
      GetMerged(q, d, id);
    }
    GetMerged(p, c, "");
    GetMerged(q, d, "");
    Extensional(MergedMap(p, c), MergedMap(q, d));
  }

  /** Merging the same scan again changes nothing. */
  lemma MergeIdempotent(previous: seq<Device>, discovered: seq<Device>)
    ensures Merged(Merged(previous, discovered), discovered) == Merged(previous, discovered)
  {
    var m := Merged(previous, discovered);
    MergedIsUnion(previous, discovered);
    forall id
      ensures Newest(m, discovered, id) == Newest(previous, discovered, id)
    {
      assert Latest(m, id) == Newest(previous, discovered, id);
    }
    MergedSame(m, discovered, previous, discovered);
  }

  lemma {:induction false} LatestRestored(devices: seq<Device>, id: string)
    ensures Latest(RestoredAll(devices), id) ==
            if Latest(devices, id).Some? then Some(Restored(Latest(devices, id).value)) else None
  {
    if devices != [] {
      var n := |devices| - 1;
      assert RestoredAll(devices)[..n] == RestoredAll(devices[..n]);
      LatestRestored(devices[..n], id);
    }
  }

  /** A device of a merged list is the newest entry under its id. */
  lemma MergedAt(previous: seq<Device>, discovered: seq<Device>, i: nat)
    requires i < |Merged(previous, discovered)|
    ensures var d := Merged(previous, discovered)[i]; Newest(previous, discovered, d.id) == Some(d)
  {
    var m := MergedMap(previous, discovered);
    GetMerged(previous, discovered, m[i].key);
    GetIsIndex(m, i);
  }

  /** A device the scan did not find is kept by a restart exactly when its time fits an `i64`. */
  lemma {:induction false} RestartNewest(previous: seq<Device>, discovered: seq<Device>, id: string)
    ensures var m := Merged(previous, discovered);
            Newest(RestoredAll(m), discovered, id) == Newest(previous, discovered, id) <==>
            (Latest(discovered, id).None? && Latest(m, id).Some? ==> Latest(m, id).value.lastSeen <= I64_MAX)
  {
    MergedIsUnion(previous, discovered);
    LatestRestored(Merged(previous, discovered), id);
  }

  /**
   Nor does it after a restart in between, exactly when every device that the scan does not find
   again was last seen at a time that fits an `i64`: those found again come from the scan.
   */
  lemma {:induction false} RestartKeepsMerge(read: FloatReader, previous: seq<Device>, discovered: seq<Device>)
    ensures var m := Merged(previous, discovered);
            Loaded(read, Saved(m)).Ok? &&
            (Merged(Loaded(read, Saved(m)).value, discovered) == m <==>
             forall i | 0 <= i < |m| && Latest(discovered, m[i].id).None? :: m[i].lastSeen <= I64_MAX)
  {
    var m := Merged(previous, discovered);
    var r := RestoredAll(m);
    LoadOfSaved(read, m);
    MergedIsUnion(previous, discovered);
    MergedIsUnion(r, discovered);
    if Merged(r, discovered) == m {
      forall i | 0 <= i < |m| && Latest(discovered, m[i].id).None?
        ensures m[i].lastSeen <= I64_MAX
      {
        MergedAt(previous, discovered, i);
        RestartNewest(previous, discovered, m[i].id);
      }
    }
    if forall i | 0 <= i < |m| && Latest(discovered, m[i].id).None? :: m[i].lastSeen <= I64_MAX {
      forall id
        ensures Newest(r, discovered, id) == Newest(previous, discovered, id)
      {
        LatestIn(m, id);
        RestartNewest(previous, discovered, id);
      }
      MergedSame(r, discovered, previous, discovered);
    }
  }

  lemma {:induction false} LatestIn(devices: seq<Device>, id: string)
    ensures Latest(devices, id).Some? ==>
            exists i :: 0 <= i < |devices| && devices[i] == Latest(devices, id).value && devices[i].id == id
  {
    if devices != [] && devices[|devices| - 1].id != id { LatestIn(devices[..|devices| - 1], id); }
  }

  /** `merge_inventory`. */
  method MergeInventory(previous: seq<Device>, discovered: seq<Device>) returns (devices: seq<Device>)
    ensures devices == Merged(previous, discovered)
  {
    var merged: DeviceMap := [];
    var unreached := UnreachedAll(previous);
    for i := 0 to |previous|
      invariant merged == InsertAll([], unreached[..i])
    {
      var device := previous[i].(reachable := false);
      assert unreached[..i + 1][..i] == unreached[..i];
      merged := Insert(merged, device.id, device);
    }
    assert unreached[..|previous|] == unreached;
    ghost var base := merged;
    for i := 0 to |discovered|
      invariant merged == InsertAll(base, discovered[..i])
    {
      assert discovered[..i + 1][..i] == discovered[..i];
      merged := Insert(merged, discovered[i].id, discovered[i]);
    }
    assert discovered[..|discovered|] == discovered;
    devices := Values(merged);
  }

  /** `load_inventory` on the text of an existing file. */
  method LoadInventory(read: FloatReader, text: string) returns (r: Result<seq<Device>, LoadError>)
    ensures r == Loaded(read, text)
  {
    var document := ReadDocument(read, text);
    if document.Err? { return Err(NotJson(document.error)); }
    if !document.value.Arr? { return Err(NotArray); }
    var devices := FromJsonAll(document.value.items);
    r := if devices.None? then Err(InvalidDevice) else Ok(devices.value);
  }
}

/** KLAP session keys and payloads, and the sequence counter of a session. */
module Klap {
  import opened AesCipher
  import opened Bytes
  import opened Json
  import opened JsonCursor
  import Sha1
  import Sha256
  import opened SortedMap
  import opened Wrappers
  import AesCbc
  import BigEndian
  import Cbc
  import JsonReread
  import JsonRoundTrip
  import Utf8

  /** `i32`. */
  type Int32 = i: int | -0x8000_0000 <= i < 0x8000_0000

  const SPAN: int := 0x1_0000_0000

  /** The 32-bit number that `n` wraps to. */
  function Wrap(n: int): (i: Int32)
    ensures (i - n) % SPAN == 0
  {
    (n + 0x8000_0000) % SPAN - 0x8000_0000
  }

  /** `i32::to_be_bytes`: two's complement. */
  function NumberBytes(i: Int32): (s: Bytes)
    ensures |s| == 4
  {
    BigEndian.Encode(i % SPAN, 4)
  }

  /** Read as an unsigned number, the bytes of a negative one are 2^32 more than it. */
  lemma TwosComplement(i: Int32)
    ensures BigEndian.Value(NumberBytes(i)) == if i < 0 then i + 0x1_0000_0000 else i
  {
    FourBytes();
    BigEndian.ValueOfEncode(i % SPAN, 4);
  }

  /** `i32::from_be_bytes`. */
  function NumberOf(s: Bytes): (i: Int32)
    requires |s| == 4
    ensures (i - BigEndian.Value(s)) % 0x1_0000_0000 == 0
  {
    Wrap(BigEndian.Value(s))
  }

  lemma FourBytes()
    ensures BigEndian.Pow256(4) == SPAN
  {
  }

  lemma NumberBytesInjective(i: Int32, j: Int32)
    requires NumberBytes(i) == NumberBytes(j)
    ensures i == j
  {
    FourBytes();
    BigEndian.Injective(i % SPAN, j % SPAN, 4);
  }

  /** Reading back the four bytes of a number. */
  lemma NumberOfBytes(i: Int32)
    ensures NumberOf(NumberBytes(i)) == i
  {
    FourBytes();
    BigEndian.ValueOfEncode(i % SPAN, 4);
  }

  // ----- keys -----

  datatype KlapKeys = KlapKeys(key: Block, iv: Bytes, sig: Bytes)

  ghost predicate KeysValid(k: KlapKeys) {
    |k.iv| == 12 && |k.sig| == 28
  }

  const LSK: Bytes := [0x6c, 0x73, 0x6b]
  const IV: Bytes := [0x69, 0x76]
  const LDK: Bytes := [0x6c, 0x64, 0x6b]

  ghost function Material(tag: Bytes, local: Bytes, remote: Bytes, auth: Bytes): (m: Bytes)
    ensures |m| == 32
  {
    Sha256.Of(tag + local + remote + auth)
  }

  function KeysFrom(keyFull: Bytes, ivFull: Bytes, sigFull: Bytes): (k: KlapKeys)
    requires |keyFull| == |ivFull| == |sigFull| == 32
    ensures KeysValid(k)
  {
    KlapKeys(keyFull[..16], ivFull[..12], sigFull[..28])
  }

  ghost function DerivedKeys(local: Bytes, remote: Bytes, auth: Bytes): (k: KlapKeys)
    ensures KeysValid(k)
  {
    KeysFrom(Material(LSK, local, remote, auth), Material(IV, local, remote, auth), Material(LDK, local, remote, auth))
  }

  /** The sequence number shares a digest with the initialisation vector. */
  ghost function DerivedNumber(local: Bytes, remote: Bytes, auth: Bytes): Int32 {
    NumberOf(Material(IV, local, remote, auth)[28..32])
  }

  /** Parts of the digests under the labels "lsk", "iv" and "ldk". */
  lemma DerivedParts(local: Bytes, remote: Bytes, auth: Bytes)
    ensures var keys := DerivedKeys(local, remote, auth);
            && keys.key == Sha256.Of([0x6c, 0x73, 0x6b] + local + remote + auth)[..16]
            && keys.iv == Sha256.Of([0x69, 0x76] + local + remote + auth)[..12]
            && keys.sig == Sha256.Of([0x6c, 0x64, 0x6b] + local + remote + auth)[..28]
    ensures DerivedNumber(local, remote, auth) == NumberOf(Sha256.Of([0x69, 0x76] + local + remote + auth)[28..])
  {
    var m := Material(IV, local, remote, auth);
    assert m[28..32] == m[28..];
  }

  method Digested(tag: Bytes, local: Bytes, remote: Bytes, auth: Bytes) returns (m: Bytes)
    ensures m == Material(tag, local, remote, auth)
  {
    m := Sha256.Compute(tag + local + remote + auth);
  }

  /** `derive_keys`. */
  method DeriveKeys(local: Bytes, remote: Bytes, auth: Bytes) returns (keys: KlapKeys, number: Int32)
    ensures keys == DerivedKeys(local, remote, auth) && number == DerivedNumber(local, remote, auth)
  {
    var keyFull := Digested(LSK, local, remote, auth);
    var ivFull := Digested(IV, local, remote, auth);
    var sigFull := Digested(LDK, local, remote, auth);
    keys := KeysFrom(keyFull, ivFull, sigFull);
    number := NumberOf(ivFull[28..32]);
  }

  /** `auth_hash`. */
  method AuthHash(username: string, password: string) returns (auth: Bytes)
    ensures auth == Sha256.Of(Sha1.Of(Utf8.Encode(username)) + Sha1.Of(Utf8.Encode(password)))
  {
    var u := Sha1.Compute(Utf8.Encode(username));
    var p := Sha1.Compute(Utf8.Encode(password));
    auth := Sha256.Compute(u + p);
  }

  // ----- payloads -----

  function Vector(keys: KlapKeys, number: Int32): Block
    requires KeysValid(keys)
  {
    keys.iv + NumberBytes(number)
  }

  ghost function Cipher(keys: KlapKeys, number: Int32, plain: Bytes): Bytes
    requires KeysValid(keys)
  {
    AesCbc.Encrypted(keys.key, Vector(keys, number), plain)
  }

  ghost function Payload(keys: KlapKeys, number: Int32, plain: Bytes): Bytes
    requires KeysValid(keys)
  {
    var cipher := Cipher(keys, number, plain);
    Sha256.Of(keys.sig + NumberBytes(number) + cipher) + cipher
  }

  /**
   What a device makes of the bytes it receives: the first thirty-two are the digest of signing key,
   number and all that follows, and what follows decrypts to `plain` under the vector of that number.
   */
  ghost predicate Received(keys: KlapKeys, number: Int32, p: Bytes, plain: Bytes)
    requires KeysValid(keys)
  {
    && |p| >= 32
    && p[..32] == Sha256.Of(keys.sig + NumberBytes(number) + p[32..])
    && AesCbc.Decrypted(keys.key, keys.iv + NumberBytes(number), p[32..]) == Ok(plain)
  }

  /** No bytes but the payload are received as `plain`. */
  lemma ReceivedExactly(keys: KlapKeys, number: Int32, p: Bytes, plain: Bytes)
    requires KeysValid(keys)
    ensures Received(keys, number, p, plain) <==> p == Payload(keys, number, plain)
  {
    var cipher := Cipher(keys, number, plain);
    if |p| >= 32 { AesCbc.DecryptsExactly(keys.key, Vector(keys, number), plain, p[32..]); }
    SignedBytes(p, Sha256.Of(keys.sig + NumberBytes(number) + cipher), cipher);
  }

  lemma SignedBytes(p: Bytes, signature: Bytes, cipher: Bytes)
    requires |signature| == 32
    ensures p == signature + cipher <==> |p| >= 32 && p[..32] == signature && p[32..] == cipher
  {
    if |p| >= 32 { assert p == p[..32] + p[32..]; }
  }

  /** `encrypt_payload`. */
  method EncryptPayload(keys: KlapKeys, number: Int32, plain: Bytes) returns (out: Bytes)
    requires KeysValid(keys)
    ensures out == Payload(keys, number, plain)
    ensures forall p :: Received(keys, number, p, plain) <==> p == out
  {
    var cipher := AesCbc.EncryptData(keys.key, Vector(keys, number), plain);
    var signature := Sha256.Compute(keys.sig + NumberBytes(number) + cipher);
    out := signature + cipher;
    forall p
      ensures Received(keys, number, p, plain) <==> p == out
    {
      ReceivedExactly(keys, number, p, plain);
    }
  }

  datatype Failure =
    | BadStatus | TransportFailed | NoSignature | BadCipher(cause: Cbc.Error) | NotText
    | NotJson(parse: ParseError) | DeviceError(code: Int64)

  ghost function Opened(keys: KlapKeys, number: Int32, payload: Bytes): Result<Bytes, Failure>
    requires KeysValid(keys)
  {
    if |payload| < 32 then Err(NoSignature)
    else
      match AesCbc.Decrypted(keys.key, Vector(keys, number), payload[32..])
      case Ok(p) => Ok(p)
      case Err(e) => Err(BadCipher(e))
  }

  /** `decrypt_payload`. */
  method DecryptPayload(keys: KlapKeys, number: Int32, payload: Bytes) returns (r: Result<Bytes, Failure>)
    requires KeysValid(keys)
    ensures r == Opened(keys, number, payload)
  {
    if |payload| < 32 { return Err(NoSignature); }
    var plain := AesCbc.DecryptData(keys.key, Vector(keys, number), payload[32..]);
    match plain {
      case Ok(p) => r := Ok(p);
      case Err(e) => r := Err(BadCipher(e));
    }
  }

  /**
   A payload opens, giving `plain`, exactly when all of it after the first thirty-two bytes is what
   encrypting `plain` produces. Those thirty-two bytes, the signature, are not looked at.
   */
  lemma OpensExactly(keys: KlapKeys, number: Int32, plain: Bytes, payload: Bytes)
    requires KeysValid(keys)
    ensures Opened(keys, number, payload) == Ok(plain) <==>
            |payload| >= 32 && payload[32..] == AesCbc.Encrypted(keys.key, keys.iv + NumberBytes(number), plain)
  {
    if |payload| >= 32 {
      AesCbc.DecryptsExactly(keys.key, Vector(keys, number), plain, payload[32..]);
    }
  }

  /** What one side encrypts the other opens. */
  lemma PayloadOpens(keys: KlapKeys, number: Int32, plain: Bytes)
    requires KeysValid(keys)
    ensures Opened(keys, number, Payload(keys, number, plain)) == Ok(plain)
  {
    var p := Payload(keys, number, plain);
    assert p[32..] == Cipher(keys, number, plain);
    OpensExactly(keys, number, plain, p);
  }

  // ----- the session -----

  /** Different numbers make different vectors. */
  lemma VectorInjective(keys: KlapKeys, i: Int32, j: Int32)
    requires KeysValid(keys) && Vector(keys, i) == Vector(keys, j)
    ensures i == j
  {
    assert Vector(keys, i)[12..] == NumberBytes(i) && Vector(keys, j)[12..] == NumberBytes(j);
    NumberBytesInjective(i, j);
  }

  /** Numbers wrap to the same 32 bits exactly when they are a multiple of 2^32 apart. */
  lemma WrapSame(n: int, m: int)
    ensures Wrap(n) == Wrap(m) <==> (m - n) % SPAN == 0
  {
  }

  lemma WrapStep(n: int)
    ensures Wrap(Wrap(n) + 1) == Wrap(n + 1)
  {
  }

  /** Call `i` of a session that began at `first` encrypts under this vector. */
  ghost predicate InStep(keys: KlapKeys, first: Int32, used: seq<Block>)
    requires KeysValid(keys)
  {
    forall i | 0 <= i < |used| :: used[i] == Vector(keys, Wrap(first + i + 1))
  }

  /** Two calls of a session share a vector exactly when they are a multiple of 2^32 calls apart. */
  lemma VectorsRepeatExactly(keys: KlapKeys, first: Int32, used: seq<Block>, i: nat, j: nat)
    requires KeysValid(keys) && InStep(keys, first, used) && i < |used| && j < |used|
    ensures used[i] == used[j] <==> (j - i) % SPAN == 0
  {
    WrapSame(first + i + 1, first + j + 1);
    if used[i] == used[j] {
      VectorInjective(keys, Wrap(first + i + 1), Wrap(first + j + 1));
    }
  }

  /** What came back over HTTP, if anything. */
  datatype Reply = Lost | Answered(status: nat, body: Bytes)

  /** What a reply means to a call made with `number`. */
  ghost function Outcome(
    keys: KlapKeys, number: Int32, reply: Reply, decode: Bytes -> Option<string>, read: FloatReader
  ): Result<Json, Failure>
    requires KeysValid(keys)
  {
    if reply.Lost? then Err(TransportFailed)
    else if reply.status != 200 then Err(BadStatus)
    else Understood(Opened(keys, number, reply.body), decode, read)
  }

  /** What becomes of an opened payload. */
  function Understood(
    o: Result<Bytes, Failure>, decode: Bytes -> Option<string>, read: FloatReader
  ): Result<Json, Failure> {
    match o
    case Err(e) => Err(e)
    case Ok(plain) =>
      match decode(plain)
      case None => Err(NotText)
      case Some(text) =>
        match Parse(read, text)
        case Err(e) => Err(NotJson(e))
        case Ok(doc) => Checked(doc)
  }

  /** A document whose `error_code` is an integer other than zero is a failure. */
  function Checked(doc: Json): Result<Json, Failure> {
    var code := IntMember(doc, "error_code");
    if code.None? || code.value == 0 then Ok(doc) else Err(DeviceError(code.value))
  }

  // ----- which replies succeed -----

  /** These bytes are the text of a document. */
  predicate Spells(plain: Bytes, decode: Bytes -> Option<string>, read: FloatReader, doc: Json) {
    decode(plain).Some? && Parse(read, decode(plain).value) == Ok(doc)
  }

  /**
   A reply carries a document: it has status 200 and, after its first thirty-two bytes, it is the
   encryption, under this call's number, of bytes that are the document's text.
   */
  ghost predicate Carries(
    keys: KlapKeys, number: Int32, reply: Reply, decode: Bytes -> Option<string>, read: FloatReader, doc: Json
  )
    requires KeysValid(keys)
  {
    && reply.Answered? && reply.status == 200 && |reply.body| >= 32
    && exists plain ::
         && reply.body[32..] == AesCbc.Encrypted(keys.key, keys.iv + NumberBytes(number), plain)
         && Spells(plain, decode, read, doc)
  }

  /** The document has an "error_code" that is an integer other than zero. */
  predicate Reports(doc: Json, code: Int64) {
    doc.Obj? && Get(doc.members, "error_code") == Some(Int(code)) && code != 0
  }

  /** Carrying a document is opening to its text. */
  lemma OpenedCarries(
    keys: KlapKeys, number: Int32, reply: Reply, decode: Bytes -> Option<string>, read: FloatReader, doc: Json
  ) returns (o: Result<Bytes, Failure>)
    requires KeysValid(keys) && reply.Answered? && reply.status == 200
    ensures o == Opened(keys, number, reply.body)
    ensures Carries(keys, number, reply, decode, read, doc) <==> o.Ok? && Spells(o.value, decode, read, doc)
  {
    o := Opened(keys, number, reply.body);
    if o.Ok? { OpensExactly(keys, number, o.value, reply.body); }
    if Carries(keys, number, reply, decode, read, doc) {
      var plain :| && reply.body[32..] == AesCbc.Encrypted(keys.key, keys.iv + NumberBytes(number), plain)
                   && Spells(plain, decode, read, doc);
      OpensExactly(keys, number, plain, reply.body);
    }
  }

  lemma UnderstoodExactly(o: Result<Bytes, Failure>, decode: Bytes -> Option<string>, read: FloatReader, doc: Json)
    ensures Understood(o, decode, read) == Ok(doc) <==>
            o.Ok? && Spells(o.value, decode, read, doc) && !exists code :: Reports(doc, code)
  {
    CheckedExactly(doc);
  }

  lemma CheckedExactly(doc: Json)
    ensures Checked(doc) == Ok(doc) <==> !exists code :: Reports(doc, code)
    ensures forall code | Reports(doc, code) :: Checked(doc) == Err(DeviceError(code))
  {
    if Checked(doc).Err? { assert Reports(doc, IntMember(doc, "error_code").value); }
  }

  /**
   A call succeeds with a document exactly when the reply carries it and its error code is missing,
   no integer, or zero. The signature is not part of the condition.
   */
  lemma SucceedsExactly(
    keys: KlapKeys, number: Int32, reply: Reply, decode: Bytes -> Option<string>, read: FloatReader, doc: Json
  )
    requires KeysValid(keys)
    ensures Outcome(keys, number, reply, decode, read) == Ok(doc) <==>
            Carries(keys, number, reply, decode, read, doc) && !exists code :: Reports(doc, code)
  {
    if reply.Answered? && reply.status == 200 {
      var o := OpenedCarries(keys, number, reply, decode, read, doc);
      UnderstoodExactly(o, decode, read, doc);
    }
  }

  /** A carried document that reports an error fails the call with that error. */
  lemma FailsWithCode(
    keys: KlapKeys, number: Int32, reply: Reply, decode: Bytes -> Option<string>, read: FloatReader, doc: Json,
    code: Int64
  )
    requires KeysValid(keys) && Carries(keys, number, reply, decode, read, doc) && Reports(doc, code)
    ensures Outcome(keys, number, reply, decode, read) == Err(DeviceError(code))
  {
    var o := OpenedCarries(keys, number, reply, decode, read, doc);
    CheckedExactly(doc);
  }

  /** A device that answers with a printed document, encrypted under the call's number, is understood. */
  lemma {:induction false} AnswerUnderstood(
    keys: KlapKeys, number: Int32, doc: Json, decode: Bytes -> Option<string>, read: FloatReader
  )
    requires KeysValid(keys) && JsonRoundTrip.Readable(read, doc)
    requires decode(Utf8.Encode(Print(doc))) == Some(Print(doc))
    ensures Carries(keys, number, Answered(200, Payload(keys, number, Utf8.Encode(Print(doc)))), decode, read,
                    JsonReread.Reread(doc))
  {
    var plain := Utf8.Encode(Print(doc));
    JsonRoundTrip.ParseOfPrint(read, doc);
    assert Payload(keys, number, plain)[32..] == Cipher(keys, number, plain);
    assert Spells(plain, decode, read, JsonReread.Reread(doc));
  }

  /** How `execute` looks at a reply. */
  method Interpret(keys: KlapKeys, number: Int32, reply: Reply, decode: Bytes -> Option<string>, read: FloatReader)
    returns (r: Result<Json, Failure>)
    requires KeysValid(keys)
    ensures r == Outcome(keys, number, reply, decode, read)
  {
    if reply.Lost? { return Err(TransportFailed); }
    if reply.status != 200 { return Err(BadStatus); }
    var plain := DecryptPayload(keys, number, reply.body);
    if plain.Err? { return Err(plain.error); }
    var text := decode(plain.value);
    if text.None? { return Err(NotText); }
    var doc := ReadDocument(read, text.value);
    if doc.Err? { return Err(NotJson(doc.error)); }
    r := Checked(doc.value);
  }

  /** The session has made `|used|` calls, each in step, and stands at the number of the last. */
  ghost predicate AtStep(keys: KlapKeys, first: Int32, used: seq<Block>, number: Int32)
    requires KeysValid(keys)
  {
    number == Wrap(first + |used|) && InStep(keys, first, used)
  }

  lemma AtFirst(keys: KlapKeys, first: Int32)
    requires KeysValid(keys)
    ensures AtStep(keys, first, [], first)
  {
  }

  lemma AtNext(keys: KlapKeys, first: Int32, used: seq<Block>, number: Int32, next: Int32)
    requires KeysValid(keys) && AtStep(keys, first, used, number) && next == Wrap(number + 1)
    ensures AtStep(keys, first, used + [Vector(keys, next)], next)
  {
    WrapStep(first + |used|);
    assert first + |used + [Vector(keys, next)]| == first + |used| + 1;
  }

  class KlapSession {
    const keys: KlapKeys
    var number: Int32
    ghost const first: Int32
    ghost var used: seq<Block>

    ghost predicate Valid()
      reads this
    {
      KeysValid(keys) && AtStep(keys, first, used, number)
    }

    constructor (local: Bytes, remote: Bytes, auth: Bytes)
      ensures Valid() && used == []
      ensures keys == DerivedKeys(local, remote, auth) && first == DerivedNumber(local, remote, auth)
    {
      var k, n := DeriveKeys(local, remote, auth);
      AtFirst(k, n);
      keys, number, first, used := k, n, n, [];
    }

    /**
     `execute`. The number advances before anything can fail, so a lost reply or a refused one
     still uses it up.
     */
    method Execute(request: string, reply: Reply, decode: Bytes -> Option<string>, read: FloatReader)
      returns (sent: Bytes, r: Result<Json, Failure>)
      requires Valid()
      modifies this
      ensures Valid()
      ensures number == Wrap(old(number) + 1)
      ensures used == old(used) + [Vector(keys, number)]
      ensures forall p :: Received(keys, number, p, Utf8.Encode(request)) <==> p == sent
      ensures r == Outcome(keys, number, reply, decode, read)
    {
      var next := Wrap(number + 1);
      AtNext(keys, first, used, number, next);
      number := next;
      used := used + [Vector(keys, next)];
      sent := EncryptPayload(keys, next, Utf8.Encode(request));
      r := Interpret(keys, next, reply, decode, read);
    }
  }
}

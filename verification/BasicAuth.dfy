/** HTTP Basic authentication (RFC 7617, section 2), and the comparison it ends in. */
module BasicAuth {
  import opened Bytes
  import opened Text
  import opened Wrappers
  import Base64
  import Utf8

  lemma OrZero(d: byte, x: byte, y: byte)
    ensures d | (x ^ y) == 0 <==> d == 0 && x == y
  {
  }

  /** `eq_constant_time`: the differences of all the bytes are gathered before any is looked at. */
  method EqConstantTime(a: Bytes, b: Bytes) returns (equal: bool)
    ensures equal <==> a == b
  {
    if |a| != |b| { return false; }
    var diff: byte := 0;
    for i := 0 to |a|
      invariant diff == 0 <==> a[..i] == b[..i]
    {
      OrZero(diff, a[i], b[i]);
      assert a[..i + 1] == a[..i] + [a[i]] && b[..i + 1] == b[..i] + [b[i]];
      diff := diff | (a[i] ^ b[i]);
    }
    assert a[..|a|] == a && b[..|b|] == b;
    equal := diff == 0;
  }

  datatype Credentials = Credentials(username: string, password: string)

  const PREFIX: string := "Basic "

  function Joined(c: Credentials): string {
    c.username + ":" + c.password
  }

  /** `basic_auth_header`. */
  function Header(c: Credentials): string {
    PREFIX + Base64.Encode(Utf8.Encode(Joined(c)))
  }

  function StripPrefix(s: string, p: string): Option<string> {
    if p <= s then Some(s[|p|..]) else None
  }

  /** The bytes a header presents, if it is a Basic header. */
  function Presented(header: Option<string>): Option<Bytes> {
    match header
    case None => None
    case Some(h) =>
      match StripPrefix(h, PREFIX)
      case None => None
      case Some(encoded) => Base64.Decode(Trim(encoded))
  }

  /** A header presents what its text after "Basic " decodes to, with white space around it taken off. */
  lemma PresentedExactly(h: string, data: Bytes)
    ensures Presented(Some(h)) == Some(data) <==>
            exists t :: h == "Basic " + t && Base64.Decode(Trim(t)) == Some(data)
  {
    if PREFIX <= h { assert h == "Basic " + h[|PREFIX|..]; }
    forall t | h == "Basic " + t
      ensures PREFIX <= h && h[|PREFIX|..] == t
    {
    }
  }

  /** `authorized_basic`. */
  method AuthorizedBasic(configured: Option<Credentials>, header: Option<string>) returns (ok: bool)
    ensures ok <==> configured.Some? && Presented(header) == Some(Utf8.Encode(Joined(configured.value)))
  {
    if configured.None? || header.None? { return false; }
    var encoded := StripPrefix(header.value, PREFIX);
    if encoded.None? { return false; }
    var decoded := Base64.DecodeText(Trim(encoded.value));
    if decoded.None? { return false; }
    ok := EqConstantTime(decoded.value, Utf8.Encode(Joined(configured.value)));
  }

  /** No character of an encoded text is white space, so trimming it takes nothing off. */
  lemma TrimNothing(s: string)
    requires forall i | 0 <= i < |s| :: !IsBlank(s[i])
    ensures Trim(s) == s
  {
  }

  lemma HeaderPresents(c: Credentials)
    ensures Presented(Some(Header(c))) == Some(Utf8.Encode(Joined(c)))
  {
    var data := Utf8.Encode(Joined(c));
    Base64.EncodeIsPrintable(data);
    TrimNothing(Base64.Encode(data));
    Base64.RoundTrip(data);
    assert Header(c)[|PREFIX|..] == Base64.Encode(data);
  }

  /** The pairs whose header is accepted are those that join to the configured text. */
  lemma AcceptsExactly(c: Credentials, configured: Credentials)
    ensures Presented(Some(Header(c))) == Some(Utf8.Encode(Joined(configured))) <==> Joined(c) == Joined(configured)
  {
    HeaderPresents(c);
    if Utf8.Encode(Joined(c)) == Utf8.Encode(Joined(configured)) {
      Utf8.EncodeInjective(Joined(c), Joined(configured));
    }
  }

  /** Two pairs that join to the same text are the same once their user names are equally long. */
  lemma SameSplit(c: Credentials, d: Credentials)
    requires Joined(c) == Joined(d) && |c.username| == |d.username|
    ensures c == d
  {
    var s, n := Joined(c), |c.username|;
    assert c.username == s[..n] && c.password == s[n + 1..];
    assert d.username == s[..n] && d.password == s[n + 1..];
  }

  /** Which part of the joined text a character comes from. */
  lemma JoinedAt(c: Credentials, k: nat)
    requires k < |Joined(c)|
    ensures k < |c.username| ==> Joined(c)[k] in c.username
    ensures k == |c.username| ==> Joined(c)[k] == ':'
    ensures k > |c.username| ==> Joined(c)[k] in c.password
  {
  }

  /** A colon anywhere gives another pair that joins to the same text. */
  lemma OtherSplit(c: Credentials) returns (d: Credentials)
    requires ':' in c.username || ':' in c.password
    ensures d != c && Joined(d) == Joined(c)
  {
    var u, p := c.username, c.password;
    if ':' in u {
      var k :| 0 <= k < |u| && u[k] == ':';
      d := Credentials(u[..k], u[k + 1..] + ":" + p);
      assert u == u[..k] + ":" + u[k + 1..];
    } else {
      var k :| 0 <= k < |p| && p[k] == ':';
      d := Credentials(u + ":" + p[..k], p[k + 1..]);
      assert p == p[..k] + ":" + p[k + 1..];
    }
  }

  /** Only the configured pair is accepted exactly when it has no colon, in either half. */
  lemma AcceptsOnlyConfigured(configured: Credentials)
    ensures (forall c :: Presented(Some(Header(c))) == Some(Utf8.Encode(Joined(configured))) ==> c == configured)
            <==> ':' !in configured.username && ':' !in configured.password
  {
    if ':' in configured.username || ':' in configured.password {
      var d := OtherSplit(configured);
      AcceptsExactly(d, configured);
    } else {
      forall c | Presented(Some(Header(c))) == Some(Utf8.Encode(Joined(configured)))
        ensures c == configured
      {
        AcceptsExactly(c, configured);
        JoinedAt(c, |c.username|);
        JoinedAt(configured, |c.username|);
        SameSplit(c, configured);
      }
    }
  }

  /** Among user names without a colon, as the standard has them, the password may have any. */
  lemma AcceptsStandardPair(c: Credentials, configured: Credentials)
    requires ':' !in c.username && ':' !in configured.username
    ensures Presented(Some(Header(c))) == Some(Utf8.Encode(Joined(configured))) <==> c == configured
  {
    AcceptsExactly(c, configured);
    if Joined(c) == Joined(configured) {
      JoinedAt(c, |c.username|);
      JoinedAt(configured, |c.username|);
      JoinedAt(c, |configured.username|);
      JoinedAt(configured, |configured.username|);
      SameSplit(c, configured);
    }
  }

  // ----- an example -----

  /** The octets of a text of plain characters are its codes. */
  lemma {:induction false} PlainOctets(s: string)
    requires forall i | 0 <= i < |s| :: s[i] as int < 0x80
    ensures |Utf8.Encode(s)| == |s|
    ensures forall i | 0 <= i < |s| :: Octets(Utf8.Encode(s))[i] == s[i] as int
  {
    if s != "" {
      var c, t := s[0], s[1..];
      assert forall i | 0 <= i < |t| :: t[i] == s[i + 1];
      PlainOctets(t);
      Utf8.EncodeCharAt(c, 0);
      assert Utf8.Encode(s)[0] == Utf8.EncodeChar(c)[0] && Utf8.Encode(s)[1..] == Utf8.Encode(t);
    }
  }

  lemma ExampleGroups()
    ensures Base64.EncodeGroup([97, 100, 109]) == "YWRt" && Base64.EncodeGroup([105, 110, 58]) == "aW46"
    ensures Base64.EncodeGroup([112, 119]) == "cHc="
  {
    Base64.CutIs(0x61_646d, 24, 22, 17, 45);
    Base64.CutIs(0x69_6e3a, 26, 22, 56, 58);
    Base64.CutIs(0x70_7700, 28, 7, 28, 0);
  }

  lemma {:induction false} ThreeGroups(
    enc: Base64.Chunk -> Base64.Quartet, a: Base64.Chunk, b: Base64.Chunk, c: Base64.Chunk
  )
    requires |a| == 3 && |b| == 3
    ensures Base64.EncodeBy(enc, a + (b + c)) == enc(a) + (enc(b) + enc(c))
  {
    Base64.TwoGroups(enc, b, c);
    assert (a + (b + c))[..3] == a && (a + (b + c))[3..] == b + c;
  }

  function ExampleOctets(): seq<Octet> {
    [97, 100, 109, 105, 110, 58, 112, 119]
  }

  lemma ExampleEncoded()
    ensures Base64.EncodeBy(Base64.EncodeGroup, ExampleOctets()) == "YWRtaW46cHc="
  {
    var a: Base64.Chunk, b: Base64.Chunk, c: Base64.Chunk := [97, 100, 109], [105, 110, 58], [112, 119];
    ThreeGroups(Base64.EncodeGroup, a, b, c);
    ExampleGroups();
    assert a + (b + c) == ExampleOctets();
    assert "YWRt" + ("aW46" + "cHc=") == "YWRtaW46cHc=";
  }

  lemma {:induction false} ExampleText(s: string)
    requires s == "admin:pw"
    ensures Octets(Utf8.Encode(s)) == ExampleOctets()
  {
    PlainOctets(s);
  }

  /** The header that the program's own tests send for a name and a password. */
  lemma HeaderExample()
    ensures Header(Credentials("admin", "pw")) == "Basic YWRtaW46cHc="
  {
    var c := Credentials("admin", "pw");
    assert Joined(c) == "admin:pw";
    ExampleText(Joined(c));
    ExampleEncoded();
    assert "Basic " + "YWRtaW46cHc=" == "Basic YWRtaW46cHc=";
  }

  /** With a colon in the user name, or in the password, another pair is accepted for the configured one. */
  lemma ColonIsAmbiguous()
    ensures var c, d := Credentials("a", "b:c"), Credentials("a:b", "c");
            && c != d
            && Presented(Some(Header(c))) == Some(Utf8.Encode(Joined(d)))
            && Presented(Some(Header(d))) == Some(Utf8.Encode(Joined(c)))
  {
    var c, d := Credentials("a", "b:c"), Credentials("a:b", "c");
    assert Joined(c) == "a:b:c" == Joined(d);
    AcceptsExactly(c, d);
    AcceptsExactly(d, c);
  }
}

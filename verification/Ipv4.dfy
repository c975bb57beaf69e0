/** IPv4 addresses: their text form, as `Ipv4Addr` prints and parses it, and their number. */
module Ipv4 {
  import opened Bytes
  import opened Digits
  import opened Wrappers

  datatype Address = Address(a: Octet, b: Octet, c: Octet, d: Octet)

  function Print(ip: Address): string {
    Decimal(ip.a) + PrintMore([ip.b, ip.c, ip.d])
  }

  /** Each octet after its dot. */
  function PrintMore(rest: seq<Octet>): string {
    if rest == [] then "" else "." + Decimal(rest[0]) + PrintMore(rest[1..])
  }

  /** Four numbers with dots between. */
  lemma PrintIs(ip: Address)
    ensures Print(ip) == Decimal(ip.a) + "." + Decimal(ip.b) + "." + Decimal(ip.c) + "." + Decimal(ip.d)
  {
    assert PrintMore([ip.d]) == "." + Decimal(ip.d) by { assert [ip.d][1..] == []; }
    assert PrintMore([ip.c, ip.d]) == "." + Decimal(ip.c) + PrintMore([ip.d]) by { assert [ip.c, ip.d][1..] == [ip.d]; }
    assert [ip.b, ip.c, ip.d][1..] == [ip.c, ip.d];
  }

  /** One to three digits, without a leading zero, at most 255. */
  predicate IsOctet(s: string)
    requires AllDigits(s)
  {
    1 <= |s| <= 3 && (s[0] == '0' ==> |s| == 1) && Value(s) < 256
  }

  /** An octet at the start of a text, and what follows it. */
  function ParseOctet(s: string): (r: Option<(Octet, string)>) {
    var n := DigitCount(s);
    if IsOctet(s[..n]) then Some((Value(s[..n]), s[n..])) else None
  }

  /** A dot and an octet. */
  function ParseNext(s: string): (r: Option<(Octet, string)>) {
    if s != "" && s[0] == '.' then ParseOctet(s[1..]) else None
  }

  /** The last `k` octets, and nothing after them. */
  function ParseMore(s: string, k: nat): (r: Option<seq<Octet>>)
    ensures r.Some? ==> |r.value| == k
  {
    if k == 0 then (if s == "" then Some([]) else None) else
    match ParseNext(s)
    case None => None
    case Some((n, rest)) =>
      match ParseMore(rest, k - 1)
      case None => None
      case Some(more) => Some([n] + more)
  }

  function Parse(s: string): Option<Address> {
    match ParseOctet(s)
    case None => None
    case Some((n, rest)) =>
      match ParseMore(rest, 3)
      case None => None
      case Some(more) => Some(Address(n, more[0], more[1], more[2]))
  }

  lemma OctetOfDecimal(n: Octet)
    ensures IsOctet(Decimal(n)) && Value(Decimal(n)) == n
  {
    ValueOfPadded(n, 0);
    DecimalCanonical(n);
    assert Pow10(3) == 10 * (10 * (10 * Pow10(0)));
    DecimalLength(n, 3);
  }

  lemma ParseOctetOf(n: Octet, post: string)
    requires NoDigit(post)
    ensures ParseOctet(Decimal(n) + post) == Some((n, post))
  {
    DigitCountOf(Decimal(n), post);
    OctetOfDecimal(n);
    assert (Decimal(n) + post)[..|Decimal(n)|] == Decimal(n);
  }

  lemma ParseNextOf(n: Octet, post: string)
    requires NoDigit(post)
    ensures ParseNext("." + Decimal(n) + post) == Some((n, post))
  {
    assert ("." + Decimal(n) + post)[1..] == Decimal(n) + post;
    ParseOctetOf(n, post);
  }

  lemma OctetText(s: string)
    requires ParseOctet(s).Some?
    ensures var (n, rest) := ParseOctet(s).value; s == Decimal(n) + rest
  {
    DecimalOfValue(s[..DigitCount(s)]);
  }

  lemma NextText(s: string)
    requires ParseNext(s).Some?
    ensures var (n, rest) := ParseNext(s).value; s == "." + Decimal(n) + rest
  {
    OctetText(s[1..]);
    assert s == "." + s[1..];
  }

  lemma {:induction false} MoreStep(s: string, n: Octet, t: string, more: seq<Octet>)
    requires ParseNext(s) == Some((n, t)) && ParseMore(t, |more|) == Some(more)
    ensures ParseMore(s, 1 + |more|) == Some([n] + more)
  {
  }

  lemma {:induction false} MoreOf(rest: seq<Octet>)
    ensures ParseMore(PrintMore(rest), |rest|) == Some(rest)
  {
    if rest != [] {
      ParseNextOf(rest[0], PrintMore(rest[1..]));
      MoreOf(rest[1..]);
      MoreStep(PrintMore(rest), rest[0], PrintMore(rest[1..]), rest[1..]);
      assert rest == [rest[0]] + rest[1..];
    }
  }

  lemma {:induction false} MoreText(s: string, k: nat)
    requires ParseMore(s, k).Some?
    ensures s == PrintMore(ParseMore(s, k).value)
  {
    if k > 0 {
      var (n, rest) := ParseNext(s).value;
      NextText(s);
      MoreText(rest, k - 1);
      var more := ParseMore(rest, k - 1).value;
      assert ([n] + more)[1..] == more;
    }
  }

  /** Only the printed form of an address parses, to that address. */
  lemma ParsesExactly(s: string, ip: Address)
    ensures Parse(s) == Some(ip) <==> s == Print(ip)
  {
    var more := [ip.b, ip.c, ip.d];
    ParseOctetOf(ip.a, PrintMore(more));
    MoreOf(more);
    if Parse(s) == Some(ip) {
      var (n, rest) := ParseOctet(s).value;
      OctetText(s);
      MoreText(rest, 3);
      assert ParseMore(rest, 3).value == more;
    }
  }

  // ----- addresses as numbers -----

  const SPACE: nat := 0x1_0000_0000

  /** `ipToInt`, and `u32::from`. */
  function Number(ip: Address): (n: nat)
    ensures n < SPACE
  {
    ip.a * 16777216 + ip.b * 65536 + ip.c * 256 + ip.d
  }

  /** `intToIp`. */
  function OfNumber(n: nat): Address
    requires n < SPACE
  {
    Address(n / 16777216, n / 65536 % 256, n / 256 % 256, n % 256)
  }

  /** The first octet is the high one. */
  lemma NumberExample()
    ensures Number(Address(192, 168, 65, 40)) == 0xc0a8_4128 && OfNumber(0x0102_0304) == Address(1, 2, 3, 4)
  {
  }

  lemma NumberOf(n: nat)
    requires n < SPACE
    ensures Number(OfNumber(n)) == n
  {
    assert n / 256 / 256 == n / 65536 && n / 65536 / 256 == n / 16777216;
  }
}

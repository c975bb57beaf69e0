/** `Ipv4Cidr`'s mask test, and that it agrees with the interval test the site assertions make. */
module Cidr {
  import opened Bytes
  import opened Digits
  import opened Division
  import opened Ipv4
  import opened Wrappers

  // ----- bits -----

  /** `pow2`. */
  function Pow2(n: nat): (p: nat)
    ensures p >= 1
  {
    if n == 0 then 1 else 2 * Pow2(n - 1)
  }

  /** The bitwise "and" of the low `k` bits. */
  function And(a: nat, b: nat, k: nat): nat {
    if k == 0 then 0
    else 2 * And(a / 2, b / 2, k - 1) + (if a % 2 == 1 && b % 2 == 1 then 1 else 0)
  }

  const WIDTH: nat := 32

  /** `u32::MAX << (32 - prefix)`, the bits beyond the width falling off; no shift for a prefix of 0. */
  function Mask(prefix: nat): nat
    requires prefix <= WIDTH
  {
    if prefix == 0 then 0 else (Pow2(WIDTH) - 1) * Pow2(WIDTH - prefix) % Pow2(WIDTH)
  }

  lemma {:induction false} Pow2Add(m: nat, n: nat)
    ensures Pow2(m + n) == Pow2(m) * Pow2(n)
  {
    if n > 0 { Pow2Add(m, n - 1); }
  }

  // ----- rounding down -----

  /** `x / m * m`: the greatest multiple of `m` up to `x`. */
  function Floor(x: nat, m: nat): (f: nat)
    requires m > 0
  {
    Times(x / m, m)
  }

  function Times(q: nat, m: nat): nat {
    q * m
  }

  lemma FloorBounds(x: nat, m: nat)
    requires m > 0
    ensures Floor(x, m) <= x < Floor(x, m) + m
  {
    assert x == x / m * m + x % m;
  }

  /** Two numbers round to the same multiple when one lies in the run above the other's. */
  lemma SameFloor(x: nat, y: nat, m: nat)
    requires m > 0
    ensures Floor(x, m) == Floor(y, m) <==> Floor(y, m) <= x <= Floor(y, m) + m - 1
  {
    FloorBounds(x, m);
    if Floor(y, m) <= x <= Floor(y, m) + m - 1 {
      Divided(x, m, y / m, x - Floor(y, m));
    }
  }

  /** Below a multiple of `m`, a whole run of `m` still fits. */
  lemma FloorFits(x: nat, m: nat, count: nat)
    requires m > 0 && x < Times(count, m)
    ensures Floor(x, m) + m <= Times(count, m)
  {
    FloorBounds(x, m);
    Distribute(count, x / m, m);
    AtLeast(count - x / m, m);
  }

  lemma HalveTwice(a: nat, m: nat)
    requires m > 0
    ensures a / 2 / m == a / (2 * m)
  {
    var q, r := a / 2 / m, a / 2 % m;
    assert a / 2 == q * m + r;
    assert a == q * (2 * m) + (2 * r + a % 2);
    Divided(a, 2 * m, q, 2 * r + a % 2);
  }

  lemma FloorHalf(a: nat, m: nat)
    requires m > 0
    ensures 2 * Floor(a / 2, m) == Floor(a, 2 * m)
  {
    HalveTwice(a, m);
  }

  // ----- masks -----

  lemma MaskArithmetic(all: nat, size: nat)
    requires 0 < size <= all
    ensures (all - 1) * size % all == all - size
  {
    assert (all - 1) * size == (size - 1) * all + (all - size);
    Divided((all - 1) * size, all, size - 1, all - size);
  }

  lemma {:induction false} Pow2Grows(s: nat, k: nat)
    requires s <= k
    ensures Pow2(s) <= Pow2(k) && (s < k ==> Pow2(s) < Pow2(k))
  {
    if s < k { Pow2Grows(s, k - 1); }
  }

  /** The mask is all but the last `size` numbers. */
  lemma {:induction false} MaskValue(prefix: nat)
    requires prefix <= WIDTH
    ensures Pow2(WIDTH - prefix) <= Pow2(WIDTH) && Mask(prefix) == Pow2(WIDTH) - Pow2(WIDTH - prefix)
  {
    Pow2Grows(WIDTH - prefix, WIDTH);
    if prefix > 0 { MaskArithmetic(Pow2(WIDTH), Pow2(WIDTH - prefix)); }
  }

  /** Keeping the bits from `s` on rounds down to a multiple of two to the `s`. */
  lemma {:induction false} AndHigh(a: nat, mask: nat, s: nat, k: nat)
    requires s <= k && a < Pow2(k) && mask + Pow2(s) == Pow2(k)
    ensures And(a, mask, k) == Floor(a, Pow2(s))
  {
    if k > 0 {
      if s == 0 {
        AndHigh(a / 2, mask / 2, 0, k - 1);
        assert mask % 2 == 1;
      } else {
        AndHigh(a / 2, mask / 2, s - 1, k - 1);
        FloorHalf(a, Pow2(s - 1));
        assert mask % 2 == 0;
      }
    }
  }

  // ----- the two tests -----

  datatype Block = Block(network: nat, mask: nat)

  /** What parsing an address and a prefix keeps. */
  function BlockOf(base: Address, prefix: nat): Block
    requires prefix <= WIDTH
  {
    Block(And(Number(base), Mask(prefix), WIDTH), Mask(prefix))
  }

  predicate Contains(block: Block, ip: Address) {
    And(Number(ip), block.mask, WIDTH) == block.network
  }

  function Size(prefix: nat): nat
    requires prefix <= WIDTH
  {
    Pow2(WIDTH - prefix)
  }

  /** `parseCidr`'s first and last numbers. */
  function First(base: Address, prefix: nat): nat
    requires prefix <= WIDTH
  {
    Floor(Number(base), Size(prefix))
  }

  function Last(base: Address, prefix: nat): nat
    requires prefix <= WIDTH
  {
    First(base, prefix) + Size(prefix) - 1
  }

  lemma SpaceIsPow2()
    ensures Pow2(WIDTH) == SPACE
  {
    assert Pow2(8) == 256;
    Pow2Add(8, 8);
    Pow2Add(16, 16);
  }

  lemma Masked(ip: Address, prefix: nat)
    requires prefix <= WIDTH
    ensures And(Number(ip), Mask(prefix), WIDTH) == Floor(Number(ip), Size(prefix))
  {
    SpaceIsPow2();
    MaskValue(prefix);
    AndHigh(Number(ip), Mask(prefix), WIDTH - prefix, WIDTH);
  }

  /** The mask test and the interval test agree, for every base, prefix and address. */
  lemma MaskIsInterval(base: Address, prefix: nat, ip: Address)
    requires prefix <= WIDTH
    ensures Contains(BlockOf(base, prefix), ip) <==> First(base, prefix) <= Number(ip) <= Last(base, prefix)
  {
    Masked(base, prefix);
    Masked(ip, prefix);
    SameFloor(Number(ip), Number(base), Size(prefix));
  }

  lemma LastInSpace(base: Address, prefix: nat)
    requires prefix <= WIDTH
    ensures Last(base, prefix) < SPACE
  {
    SpaceIsPow2();
    Pow2Add(prefix, WIDTH - prefix);
    FloorFits(Number(base), Size(prefix), Pow2(prefix));
  }

  /** `broadcastOf`. */
  function Broadcast(base: Address, prefix: nat): Address
    requires prefix <= WIDTH
  {
    LastInSpace(base, prefix);
    OfNumber(Last(base, prefix))
  }

  /** The broadcast address is in the mask's block, and is its greatest. */
  lemma BroadcastIsLast(base: Address, prefix: nat, ip: Address)
    requires prefix <= WIDTH
    ensures Contains(BlockOf(base, prefix), Broadcast(base, prefix))
    ensures Contains(BlockOf(base, prefix), ip) ==> Number(ip) <= Number(Broadcast(base, prefix))
  {
    LastInSpace(base, prefix);
    NumberOf(Last(base, prefix));
    MaskIsInterval(base, prefix, Broadcast(base, prefix));
    MaskIsInterval(base, prefix, ip);
  }

  /** A prefix of zero, where the shift would be the whole width, contains every address. */
  lemma ZeroPrefixContainsAll(base: Address, ip: Address)
    ensures Contains(BlockOf(base, 0), ip)
  {
    WholeSpace(base, ip, 0);
  }

  lemma WholeSpace(base: Address, ip: Address, prefix: nat)
    requires prefix == 0
    ensures Contains(BlockOf(base, prefix), ip)
  {
    Masked(base, prefix);
    Masked(ip, prefix);
    SpaceIsPow2();
    FloorOfSmall(Number(base), Size(prefix));
    FloorOfSmall(Number(ip), Size(prefix));
  }

  lemma FloorOfSmall(a: nat, size: nat)
    requires a < size
    ensures Floor(a, size) == 0
  {
  }

  lemma OctetSizes()
    ensures Size(8) == 16777216 && Size(16) == 65536 && Size(24) == 256 && Size(32) == 1
  {
    assert Pow2(8) == 256;
    Pow2Add(8, 8);
    Pow2Add(16, 8);
  }

  /** Two numbers are in one run of `m` when they have the same quotient. */
  lemma SameQuotient(x: nat, y: nat, m: nat)
    requires m > 0
    ensures Floor(x, m) == Floor(y, m) <==> x / m == y / m
  {
    Distribute(x / m, y / m, m);
    AtLeast(x / m - y / m, m);
  }

  /** A block with a prefix of whole octets fixes exactly those octets, the first ones. */
  lemma PrefixOctets(base: Address, ip: Address)
    ensures Contains(BlockOf(base, 8), ip) <==> ip.a == base.a
    ensures Contains(BlockOf(base, 16), ip) <==> ip.a == base.a && ip.b == base.b
    ensures Contains(BlockOf(base, 24), ip) <==> ip.a == base.a && ip.b == base.b && ip.c == base.c
    ensures Contains(BlockOf(base, 32), ip) <==> ip == base
  {
    OctetSizes();
    ContainsQuotient(base, 8, ip);
    ContainsQuotient(base, 16, ip);
    ContainsQuotient(base, 24, ip);
    ContainsQuotient(base, 32, ip);
    NumberQuotients(base);
    NumberQuotients(ip);
  }

  lemma ContainsQuotient(base: Address, prefix: nat, ip: Address)
    requires prefix <= WIDTH
    ensures Contains(BlockOf(base, prefix), ip) <==> Number(ip) / Size(prefix) == Number(base) / Size(prefix)
  {
    Masked(base, prefix);
    Masked(ip, prefix);
    SameQuotient(Number(ip), Number(base), Size(prefix));
  }

  lemma NumberQuotients(ip: Address)
    ensures Number(ip) / 16777216 == ip.a && Number(ip) / 65536 == 256 * ip.a + ip.b
    ensures Number(ip) / 256 == 65536 * ip.a + 256 * ip.b + ip.c
  {
  }

  // ----- text -----

  function SlashAt(s: string): (n: nat)
    ensures n <= |s| && (n < |s| ==> s[n] == '/')
  {
    if s == "" || s[0] == '/' then 0 else 1 + SlashAt(s[1..])
  }

  /** `str::parse::<u32>`: digits, after a plus sign if there is one. */
  function ParseU32(s: string): Option<nat> {
    var digits := if s != "" && s[0] == '+' then s[1..] else s;
    if digits != "" && AllDigits(digits) && Value(digits) < SPACE then Some(Value(digits)) else None
  }

  /** `Ipv4Cidr::parse`. */
  function ParseCidr(text: string): Option<Block> {
    var n := SlashAt(text);
    if n == |text| then None else
    match Ipv4.Parse(text[..n])
    case None => None
    case Some(base) =>
      match ParseU32(text[n + 1..])
      case None => None
      case Some(prefix) => if prefix > WIDTH then None else Some(BlockOf(base, prefix))
  }

  lemma {:induction false} SlashAfter(s: string, post: string)
    requires '/' !in s
    ensures SlashAt(s + "/" + post) == |s|
  {
    if s != "" {
      assert (s + "/" + post)[1..] == s[1..] + "/" + post;
      SlashAfter(s[1..], post);
    }
  }

  lemma {:induction false} NoSlashMore(rest: seq<Octet>)
    ensures '/' !in PrintMore(rest)
  {
    if rest != [] { NoSlashMore(rest[1..]); }
  }

  lemma NoSlash(ip: Address)
    ensures '/' !in Print(ip)
  {
    NoSlashMore([ip.b, ip.c, ip.d]);
  }

  /** The digits after the slash, which a plus sign may precede. */
  predicate IsPrefix(s: string, prefix: nat) {
    var digits := if s != "" && s[0] == '+' then s[1..] else s;
    digits != "" && AllDigits(digits) && prefix == Value(digits)
  }

  /** The text is an address, a slash and a prefix of at most thirty-two. */
  predicate IsWritten(text: string, base: Address, s: string, prefix: nat) {
    text == Print(base) + "/" + s && IsPrefix(s, prefix) && prefix <= 32
  }

  lemma PrefixRead(s: string)
    ensures ParseU32(s).Some? ==> IsPrefix(s, ParseU32(s).value)
    ensures forall n: nat | n <= 32 && IsPrefix(s, n) :: ParseU32(s) == Some(n)
  {
  }

  lemma WrittenSplits(base: Address, s: string)
    ensures var text := Print(base) + "/" + s;
            && SlashAt(text) == |Print(base)| < |text|
            && text[..SlashAt(text)] == Print(base) && text[SlashAt(text) + 1..] == s
  {
    NoSlash(base);
    SlashAfter(Print(base), s);
  }

  lemma WrittenParses(text: string, base: Address, s: string, prefix: nat)
    requires IsWritten(text, base, s, prefix)
    ensures ParseCidr(text) == Some(BlockOf(base, prefix))
  {
    WrittenSplits(base, s);
    ParsesExactly(Print(base), base);
    PrefixRead(s);
  }

  lemma SplitAt(text: string, n: nat)
    requires n < |text|
    ensures text == text[..n] + [text[n]] + text[n + 1..]
  {
  }

  lemma CidrParts(text: string) returns (address: string, s: string)
    requires ParseCidr(text).Some?
    ensures text == address + "/" + s
    ensures Ipv4.Parse(address).Some? && ParseU32(s).Some? && ParseU32(s).value <= 32
  {
    var n := SlashAt(text);
    address, s := text[..n], text[n + 1..];
    SplitAt(text, n);
  }

  lemma ParsedIsWritten(text: string) returns (base: Address, s: string, prefix: nat)
    requires ParseCidr(text).Some?
    ensures IsWritten(text, base, s, prefix)
  {
    var address;
    address, s := CidrParts(text);
    base, prefix := Ipv4.Parse(address).value, ParseU32(s).value;
    ParsesExactly(address, base);
    PrefixRead(s);
  }

  /** Exactly the written forms parse, to the blocks they stand for. */
  lemma ParsesBlockExactly(text: string, block: Block)
    ensures ParseCidr(text) == Some(block) <==>
            exists base, s, prefix :: IsWritten(text, base, s, prefix) && block == BlockOf(base, prefix)
  {
    if ParseCidr(text) == Some(block) {
      var base, s, prefix := ParsedIsWritten(text);
      WrittenParses(text, base, s, prefix);
      assert IsWritten(text, base, s, prefix);
    }
    if base, s, prefix :| IsWritten(text, base, s, prefix) && block == BlockOf(base, prefix) {
      WrittenParses(text, base, s, prefix);
    }
  }

  /** The written form of a block parses to it. */
  lemma ParseWritten(base: Address, prefix: nat)
    requires prefix <= WIDTH
    ensures ParseCidr(Print(base) + "/" + Decimal(prefix)) == Some(BlockOf(base, prefix))
  {
    ValueOfPadded(prefix, 0);
    WrittenParses(Print(base) + "/" + Decimal(prefix), base, Decimal(prefix), prefix);
  }
}

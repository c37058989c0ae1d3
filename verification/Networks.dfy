/** IPv4 networks: which prefixes the configuration accepts, what a mask means,
    and the route lines OpenVPN is given. */
module Networks {
  import opened Common

  const ADDRESSES: nat := 0x1_0000_0000

  /** A parsed prefix, before it is accepted. */
  datatype Prefix = V4(addr: nat, bits: nat) | V6

  datatype Network = Network(addr: nat, bits: nat)

  function Pow2(k: nat): (p: nat)
    ensures p > 0
  {
    if k == 0 then 1 else 2 * Pow2(k - 1)
  }

  /** Bitwise AND. */
  function BitAnd(x: nat, y: nat): nat {
    if x == 0 || y == 0 then 0
    else (x % 2) * (y % 2) + 2 * BitAnd(x / 2, y / 2)
  }

  /** net.CIDRMask(bits, 32): the top bits set. */
  function Mask(bits: nat): int {
    ADDRESSES - if bits <= 32 then Pow2(32 - bits) else 0
  }

  lemma {:induction false} Pow2Add(a: nat, b: nat)
    ensures Pow2(a + b) == Pow2(a) * Pow2(b)
  {
    if a > 0 {
      Pow2Add(a - 1, b);
    }
  }

  lemma {:induction false} Pow2Monotone(a: nat, b: nat)
    requires a < b
    ensures 2 * Pow2(a) <= Pow2(b)
    decreases b
  {
    if a < b - 1 {
      Pow2Monotone(a, b - 1);
    }
  }

  lemma Pow2At32()
    ensures Pow2(32) == ADDRESSES
  {
    assert Pow2(2) == 4;
    hide Pow2;
    Pow2Add(2, 2);
    Pow2Add(4, 4);
    Pow2Add(8, 8);
    Pow2Add(16, 16);
  }

  lemma MaskRange(bits: nat)
    requires bits <= 32
    ensures 0 <= Mask(bits) < ADDRESSES
  {
    Pow2At32();
    if bits > 0 {
      Pow2Monotone(32 - bits, 32);
    }
  }

  function Masked(addr: nat, bits: nat): nat
    requires bits <= 32
  {
    MaskRange(bits);
    BitAnd(addr, Mask(bits))
  }

  /** ParseNetwork after the text has been parsed: IPv4 only, no host bits set. */
  function ParseNetwork(p: Prefix): Result<Network>
    requires p.V4? ==> p.addr < ADDRESSES && p.bits <= 32
  {
    if p.V6? then Err("must be IPv4")
    else if p.addr != Masked(p.addr, p.bits) then Err("host bits are set")
    else Ok(Network(p.addr, p.bits))
  }

  predicate Accepted(n: Network) {
    n.addr < ADDRESSES && n.bits <= 32 && ParseNetwork(V4(n.addr, n.bits)) == Ok(n)
  }

  /** An address lies in a prefix when their first bits agree. */
  predicate Contains(addr: nat, bits: nat, x: nat)
    requires bits <= 32
  {
    x / Pow2(32 - bits) == addr / Pow2(32 - bits)
  }

  // ----- what a mask does -----

  lemma AndEven(x: nat, y: nat)
    ensures BitAnd(x, 2 * y) == 2 * BitAnd(x / 2, y)
  {
    if x > 0 && y > 0 {
      assert (2 * y) % 2 == 0 && (2 * y) / 2 == y;
      assert (x % 2) * 0 == 0;
    }
  }

  /** A mask: the multiples of p below whole, as a difference. */
  predicate RoundsDown(x: nat, whole: nat, p: nat)
    requires 0 < p <= whole
  {
    BitAnd(x, whole - p) == x - x % p
  }

  lemma RoundsDownAll(x: nat, whole: nat)
    requires x < whole
    ensures RoundsDown(x, whole, whole)
  {
    AndZero(x);
    QuotientUnique(x, whole, 0, x);
  }

  lemma RoundsDownTwice(x: nat, whole: nat, p: nat)
    requires 0 < p <= whole && RoundsDown(x / 2, whole, p)
    ensures RoundsDown(x, 2 * whole, 2 * p)
  {
    hide BitAnd;
    AndEven(x, whole - p);
    HalfRemainder(x, p);
  }

  /** ANDing with a mask whose low k bits of n are clear rounds down to a multiple
      of 2^k. */
  lemma {:induction false} AndMask(x: nat, n: nat, k: nat)
    requires k <= n && x < Pow2(n)
    ensures Pow2(n) >= Pow2(k)
    ensures RoundsDown(x, Pow2(n), Pow2(k))
    decreases n
  {
    hide BitAnd, RoundsDown;
    if k == n {
      RoundsDownAll(x, Pow2(n));
    } else if k == 0 {
      Pow2Monotone(k, n);
      AndAllOnes(x, n);
      OnesRoundDown(x, Pow2(n));
    } else {
      AndMask(x / 2, n - 1, k - 1);
      RoundsDownTwice(x, Pow2(n - 1), Pow2(k - 1));
    }
  }

  lemma OnesRoundDown(x: nat, whole: nat)
    requires whole > 0 && BitAnd(x, whole - 1) == x
    ensures RoundsDown(x, whole, 1)
  {
  }

  lemma AndZero(x: nat)
    ensures BitAnd(x, 0) == 0
  {
  }

  lemma HalfRemainder(x: nat, p: nat)
    requires p > 0
    ensures x - x % (2 * p) == 2 * (x / 2 - (x / 2) % p)
  {
    var q, r := (x / 2) / p, (x / 2) % p;
    assert x / 2 == q * p + r;
    assert q * (2 * p) == 2 * (q * p);
    QuotientUnique(x, 2 * p, q, 2 * r + x % 2);
  }

  lemma {:induction false} AndAllOnes(x: nat, n: nat)
    requires x < Pow2(n)
    ensures BitAnd(x, Pow2(n) - 1) == x
  {
    if x > 0 {
      AndAllOnes(x / 2, n - 1);
      assert (Pow2(n) - 1) / 2 == Pow2(n - 1) - 1;
    }
  }

  lemma MaskedIsFloor(x: nat, bits: nat)
    requires x < ADDRESSES && bits <= 32
    ensures Masked(x, bits) == x - x % Pow2(32 - bits)
  {
    Pow2At32();
    AndMask(x, 32, 32 - bits);
  }

  lemma SameBlock(a: nat, x: nat, size: nat)
    requires size > 0
    ensures x / size == a / size <==> x - x % size == a - a % size
  {
    var qx, qa := x / size, a / size;
    assert x - x % size == qx * size && a - a % size == qa * size;
    if qx > qa {
      AtLeast(qx - qa, size);
      assert qx * size - qa * size == (qx - qa) * size;
    } else if qa > qx {
      AtLeast(qa - qx, size);
      assert qa * size - qx * size == (qa - qx) * size;
    }
  }

  /** A route is what it says: an address ANDed with the mask gives the route's
      address exactly when it lies in the network. */
  lemma MaskMatchesNetwork(n: Network, x: nat)
    requires Accepted(n) && x < ADDRESSES
    ensures Masked(x, n.bits) == n.addr <==> Contains(n.addr, n.bits, x)
  {
    MaskedIsFloor(x, n.bits);
    MaskedIsFloor(n.addr, n.bits);
    hide Masked;
    SameBlock(n.addr, x, Pow2(32 - n.bits));
  }

  lemma AlignedBlock(a: nat, x: nat, size: nat)
    requires size > 0 && a % size == 0
    ensures x / size == a / size <==> a <= x < a + size
  {
    SameBlock(a, x, size);
    if a <= x < a + size {
      assert a == (a / size) * size;
      QuotientUnique(x, size, a / size, x - a);
    }
  }

  /** An accepted network is an aligned block of addresses. */
  lemma NetworkIsBlock(n: Network, x: nat)
    requires Accepted(n)
    ensures Contains(n.addr, n.bits, x) <==> n.addr <= x < n.addr + Pow2(32 - n.bits)
  {
    MaskedIsFloor(n.addr, n.bits);
    hide Masked, Pow2;
    AlignedBlock(n.addr, x, Pow2(32 - n.bits));
  }

  lemma AlignedFits(a: nat, size: nat, count: nat)
    requires size > 0 && a % size == 0 && a < count * size
    ensures a + size <= count * size
  {
    var q := a / size;
    assert a == q * size;
    assert (count - q) * size == count * size - a;
    assert count <= q ==> (q - count) * size >= 0 && (q - count) * size == a - count * size;
    AtLeast(count - q, size);
  }

  lemma BlockFits(n: Network)
    requires Accepted(n)
    ensures n.addr + Pow2(32 - n.bits) <= ADDRESSES
  {
    MaskedIsFloor(n.addr, n.bits);
    Pow2Add(n.bits, 32 - n.bits);
    Pow2At32();
    hide Masked, Pow2;
    AlignedFits(n.addr, Pow2(32 - n.bits), Pow2(n.bits));
  }

  ghost predicate SameAddresses(a: Network, b: Network)
    requires a.bits <= 32 && b.bits <= 32
  {
    forall x: nat | x < ADDRESSES :: Contains(a.addr, a.bits, x) <==> Contains(b.addr, b.bits, x)
  }

  lemma BlockWithin(a: Network, b: Network)
    requires Accepted(a) && Accepted(b) && SameAddresses(a, b)
    ensures b.addr <= a.addr && a.addr + Pow2(32 - a.bits) <= b.addr + Pow2(32 - b.bits)
  {
    BlockFits(a);
    hide Pow2;
    var last := a.addr + Pow2(32 - a.bits) - 1;
    NetworkIsBlock(a, a.addr);
    NetworkIsBlock(b, a.addr);
    NetworkIsBlock(a, last);
    NetworkIsBlock(b, last);
  }

  /** The host-bits check makes the form canonical: accepted networks covering
      the same addresses are the same network. */
  lemma AcceptedIsCanonical(a: Network, b: Network)
    requires Accepted(a) && Accepted(b) && SameAddresses(a, b)
    ensures a == b
  {
    BlockWithin(a, b);
    BlockWithin(b, a);
    if a.bits < b.bits {
      Pow2Monotone(32 - b.bits, 32 - a.bits);
    } else if b.bits < a.bits {
      Pow2Monotone(32 - a.bits, 32 - b.bits);
    }
  }

  /** A prefix is refused exactly when it is not the block's first address, and
      the suggestion made then is accepted and covers the same addresses. */
  lemma RefusedIffNotFirst(addr: nat, bits: nat)
    requires addr < ADDRESSES && bits <= 32
    ensures ParseNetwork(V4(addr, bits)).Ok? <==> addr % Pow2(32 - bits) == 0
    ensures var fixed := Network(Masked(addr, bits), bits);
            Accepted(fixed) && SameAddresses(Network(addr, bits), fixed)
  {
    hide BitAnd, Mask, Pow2, Masked;
    var size := Pow2(32 - bits);
    MaskedIsFloor(addr, bits);
    var fixed := Masked(addr, bits);
    assert fixed == (addr / size) * size;
    QuotientUnique(fixed, size, addr / size, 0);
    MaskedIsFloor(fixed, bits);
  }

  // ----- route lines -----

  function Quad(v: nat): string {
    Dotted(v / 0x100_0000, Dotted(v / 0x1_0000 % 256, Dotted(v / 0x100 % 256, Decimal(v % 256))))
  }

  function Dotted(octet: nat, rest: string): string {
    Decimal(octet) + "." + rest
  }

  function RouteLine(n: Network): string
    requires n.bits <= 32
  {
    MaskRange(n.bits);
    "push \"route " + (Quad(n.addr) + " " + (Quad(Mask(n.bits)) + "\""))
  }

  function RoutesText(routes: seq<Network>): string
    requires forall i: nat | i < |routes| :: routes[i].bits <= 32
  {
    if routes == [] then "" else RouteLine(routes[0]) + "\n" + RoutesText(routes[1..])
  }

  lemma {:induction false} RoutesTextSnoc(routes: seq<Network>, n: Network)
    requires n.bits <= 32 && forall i: nat | i < |routes| :: routes[i].bits <= 32
    ensures RoutesText(routes + [n]) == RoutesText(routes) + (RouteLine(n) + "\n")
  {
    hide RouteLine;
    if routes == [] {
      assert routes + [n] == [n] && [n][1..] == [];
      assert RoutesText([]) == "";
    } else {
      RoutesTextSnoc(routes[1..], n);
      assert (routes + [n])[1..] == routes[1..] + [n];
    }
  }

  lemma NoRoutes(routes: seq<Network>)
    requires routes == []
    ensures RoutesText(routes) == ""
  {
  }

  /** WriteRoutes: one push line per route, in order. */
  method WriteRoutes(routes: seq<Network>) returns (w: string)
    requires forall i: nat | i < |routes| :: routes[i].bits <= 32
    ensures w == RoutesText(routes)
  {
    hide RouteLine, RoutesText, Mask;
    w := "";
    NoRoutes(routes[..0]);
    for i := 0 to |routes|
      invariant w == RoutesText(routes[..i])
    {
      RoutesTextSnoc(routes[..i], routes[i]);
      assert routes[..i + 1] == routes[..i] + [routes[i]];
      w := w + (RouteLine(routes[i]) + "\n");
    }
    assert routes[..|routes|] == routes;
  }

  function ParseOctet(s: string): Option<nat> {
    if s == [] || !AllDigits(s) || DigitsValue(s) > 255 then None else Some(DigitsValue(s))
  }

  /** A dotted sequence of octets, as one number. */
  function ParseOctets(s: string, acc: nat, more: nat): Option<nat>
    decreases more
  {
    if more == 0 then
      match ParseOctet(s) { case None => None case Some(v) => Some(acc * 256 + v) }
    else
      match Cut(s, '.')
      case None => None
      case Some((head, tail)) =>
        match ParseOctet(head)
        case None => None
        case Some(v) => ParseOctets(tail, acc * 256 + v, more - 1)
  }

  function ParseQuad(s: string): Option<nat> {
    ParseOctets(s, 0, 3)
  }

  /** The prefix length whose mask this is. */
  function MaskBits(mask: nat, bits: nat): Option<nat>
    requires bits <= 32
  {
    if Mask(bits) == mask then Some(bits)
    else if bits == 0 then None
    else MaskBits(mask, bits - 1)
  }

  const PUSH: string := "push \"route "

  function ParseRoute(line: string): Option<Network> {
    if !(PUSH <= line) then None
    else
      match Cut(line[|PUSH|..], ' ')
      case None => None
      case Some((addr, rest)) =>
        match Cut(rest, '"')
        case None => None
        case Some((mask, end)) =>
          if end != [] || ParseQuad(addr).None? || ParseQuad(mask).None? then None
          else
            match MaskBits(ParseQuad(mask).value, 32)
            case None => None
            case Some(bits) => Some(Network(ParseQuad(addr).value, bits))
  }

  function ParseRoutes(s: string): Option<seq<Network>>
    decreases |s|
  {
    if s == [] then Some([])
    else
      CutShrinks(s, '\n');
      match Cut(s, '\n')
      case None => None
      case Some((line, rest)) =>
        if ParseRoute(line).None? || ParseRoutes(rest).None? then None
        else Some([ParseRoute(line).value] + ParseRoutes(rest).value)
  }

  lemma DecimalHasNo(n: nat, c: char)
    requires !IsDigit(c)
    ensures c !in Decimal(n)
  {
    DecimalRoundTrip(n);
    assert forall i | 0 <= i < |Decimal(n)| :: IsDigit(Decimal(n)[i]);
  }

  lemma OctetRoundTrip(v: nat)
    requires v < 256
    ensures ParseOctet(Decimal(v)) == Some(v)
  {
    DecimalRoundTrip(v);
  }

  lemma NextOctet(v: nat, rest: string, acc: nat, more: nat)
    requires v < 256 && more > 0
    ensures ParseOctets(Dotted(v, rest), acc, more) == ParseOctets(rest, acc * 256 + v, more - 1)
  {
    hide Decimal, Cut, ParseOctet;
    OctetRoundTrip(v);
    DecimalHasNo(v, '.');
    CutAt(Decimal(v), '.', rest);
  }

  lemma LastOctet(v: nat, acc: nat)
    requires v < 256
    ensures ParseOctets(Decimal(v), acc, 0) == Some(acc * 256 + v)
  {
    hide Decimal, Cut, ParseOctet;
    OctetRoundTrip(v);
  }

  lemma OctetsOf(v: nat)
    requires v < ADDRESSES
    ensures v / 0x100_0000 < 256
    ensures ((v / 0x100_0000 * 256 + v / 0x1_0000 % 256) * 256 + v / 0x100 % 256) * 256 + v % 256 == v
  {
    assert v / 0x100 / 0x100 == v / 0x1_0000 && v / 0x1_0000 / 0x100 == v / 0x100_0000;
  }

  lemma FourOctets(a: nat, b: nat, c: nat, d: nat)
    requires a < 256 && b < 256 && c < 256 && d < 256
    ensures ParseQuad(Dotted(a, Dotted(b, Dotted(c, Decimal(d))))) == Some(((a * 256 + b) * 256 + c) * 256 + d)
  {
    hide Decimal, Dotted, ParseOctets;
    var s1 := Decimal(d);
    var s2 := Dotted(c, s1);
    NextOctet(a, Dotted(b, s2), 0, 3);
    NextOctet(b, s2, a, 2);
    NextOctet(c, s1, a * 256 + b, 1);
    LastOctet(d, (a * 256 + b) * 256 + c);
  }

  lemma QuadRoundTrip(v: nat)
    requires v < ADDRESSES
    ensures ParseQuad(Quad(v)) == Some(v)
  {
    hide Decimal, Dotted, ParseQuad;
    OctetsOf(v);
    FourOctets(v / 0x100_0000, v / 0x1_0000 % 256, v / 0x100 % 256, v % 256);
  }

  lemma QuadHasNo(v: nat, c: char)
    requires !IsDigit(c) && c != '.'
    ensures c !in Quad(v)
  {
    DecimalHasNo(v / 0x100_0000, c);
    DecimalHasNo(v / 0x1_0000 % 256, c);
    DecimalHasNo(v / 0x100 % 256, c);
    DecimalHasNo(v % 256, c);
    hide Decimal;
  }

  lemma {:induction false} MaskBitsRoundTrip(bits: nat, from: nat)
    requires bits <= from <= 32
    ensures Mask(bits) >= 0 && MaskBits(Mask(bits), from) == Some(bits)
    decreases from
  {
    MaskRange(bits);
    if bits < from {
      Pow2Monotone(32 - from, 32 - bits);
      MaskBitsRoundTrip(bits, from - 1);
    }
  }

  lemma RouteRoundTrip(n: Network)
    requires n.addr < ADDRESSES && n.bits <= 32
    ensures ParseRoute(RouteLine(n)) == Some(n)
    ensures '\n' !in RouteLine(n)
  {
    hide Quad, ParseQuad, Cut, Mask, MaskBits, Decimal;
    MaskRange(n.bits);
    var addr, mask := Quad(n.addr), Quad(Mask(n.bits));
    var line := RouteLine(n);
    assert line == PUSH + (addr + " " + (mask + "\""));
    assert line[|PUSH|..] == addr + " " + (mask + "\"");
    QuadHasNo(n.addr, ' ');
    QuadHasNo(n.addr, '\n');
    QuadHasNo(Mask(n.bits), '"');
    QuadHasNo(Mask(n.bits), '\n');
    CutAt(addr, ' ', mask + "\"");
    CutAt(mask, '"', "");
    assert mask + "\"" + "" == mask + "\"";
    QuadRoundTrip(n.addr);
    QuadRoundTrip(Mask(n.bits));
    MaskBitsRoundTrip(n.bits, 32);
  }

  /** The routes file denotes its networks: read back, it is the same list. */
  lemma {:induction false} RoutesRoundTrip(routes: seq<Network>)
    requires forall i: nat | i < |routes| :: routes[i].addr < ADDRESSES && routes[i].bits <= 32
    ensures ParseRoutes(RoutesText(routes)) == Some(routes)
  {
    hide RouteLine, ParseRoute, Cut;
    if routes != [] {
      RouteRoundTrip(routes[0]);
      RoutesRoundTrip(routes[1..]);
      CutAt(RouteLine(routes[0]), '\n', RoutesText(routes[1..]));
      assert [routes[0]] + routes[1..] == routes;
    }
  }
}

/** IPv4 prefix arithmetic, octet by octet as package net does it, and its meaning on numbers.
    Prefix notation is that of section 3.1 of RFC 4632; the directed broadcast address is that
    of section 3.2.1.3 of RFC 1122. */
module Prefix {
  import opened Basics

  // ---------------------------------------------------------------- bitwise operators

  function BitAnd(x: nat, y: nat): nat
    decreases x + y
  {
    if x == 0 || y == 0 then 0
    else 2 * BitAnd(x / 2, y / 2) + (if x % 2 == 1 && y % 2 == 1 then 1 else 0)
  }

  function BitOr(x: nat, y: nat): nat
    decreases x + y
  {
    if x == 0 && y == 0 then 0
    else 2 * BitOr(x / 2, y / 2) + (if x % 2 == 1 || y % 2 == 1 then 1 else 0)
  }

  /** `x` shifted left by `k` bits. */
  function Shl(x: nat, k: nat): (r: nat)
    ensures x <= r
  {
    if k == 0 then x else 2 * Shl(x, k - 1)
  }

  /** What is left of `a` when its `h` low bits are cleared. */
  function Floor(a: nat, h: nat): (r: nat)
    ensures r <= a < r + Shl(1, h)
    decreases h
  {
    if h == 0 then a else 2 * Floor(a / 2, h - 1)
  }

  lemma {:induction false} FloorWithin(b: nat, x: nat, h: nat)
    requires Floor(b, h) == b
    ensures Floor(x, h) == b <==> b <= x < b + Shl(1, h)
    decreases h
  {
    if h > 0 { FloorWithin(b / 2, x / 2, h - 1); }
  }

  lemma {:induction false} FloorFiner(a: nat, h: nat, g: nat)
    requires g <= h
    ensures Floor(Floor(a, h), g) == Floor(a, h)
    decreases h
  {
    if g > 0 {
      FloorFiner(a / 2, h - 1, g - 1);
      assert Floor(a, h) / 2 == Floor(a / 2, h - 1);
    }
  }

  lemma {:induction false} FloorCoarser(a: nat, h: nat, g: nat)
    requires g <= h
    ensures Floor(Floor(a, g), h) == Floor(a, h)
    decreases h
  {
    if g > 0 {
      FloorCoarser(a / 2, h - 1, g - 1);
      assert Floor(a, g) / 2 == Floor(a / 2, g - 1);
    }
  }

  lemma {:induction false} AndHigh(a: nat, n: nat, h: nat)
    requires h <= n && a < Shl(1, n)
    ensures Shl(1, h) <= Shl(1, n)
    ensures BitAnd(a, Shl(1, n) - Shl(1, h)) == Floor(a, h)
    decreases n
  {
    if n > 0 {
      AndHigh(a / 2, n - 1, if h == 0 then 0 else h - 1);
      if h == 0 {
        assert (Shl(1, n) - 1) / 2 == Shl(1, n - 1) - 1;
      } else {
        assert (Shl(1, n) - Shl(1, h)) / 2 == Shl(1, n - 1) - Shl(1, h - 1);
      }
    }
  }

  lemma {:induction false} OrLow(a: nat, h: nat)
    ensures BitOr(a, Shl(1, h) - 1) == Floor(a, h) + Shl(1, h) - 1
    decreases h
  {
    if h == 0 {
      OrZero(a);
    } else {
      OrLow(a / 2, h - 1);
      assert (Shl(1, h) - 1) / 2 == Shl(1, h - 1) - 1;
    }
  }

  lemma {:induction false} OrZero(a: nat)
    ensures BitOr(a, 0) == a
  {
    if a != 0 { OrZero(a / 2); }
  }

  lemma {:induction false} BitsBelow(u: nat, v: nat, k: nat)
    requires u < Shl(1, k) && v < Shl(1, k)
    ensures BitAnd(u, v) < Shl(1, k) && BitOr(u, v) < Shl(1, k)
    decreases k
  {
    if k > 0 { BitsBelow(u / 2, v / 2, k - 1); }
  }

  /** Clearing low bits of a number whose `k` low bits are `u` and whose other bits are `a`. */
  lemma {:induction false} FloorJoin(a: nat, u: nat, k: nat, h: nat)
    requires u < Shl(1, k)
    ensures h <= k ==> Floor(Shl(a, k) + u, h) == Shl(a, k) + Floor(u, h)
    ensures h >= k ==> Floor(Shl(a, k) + u, h) == Shl(Floor(a, h - k), k)
    decreases k
  {
    if k > 0 && h > 0 {
      FloorJoin(a, u / 2, k - 1, h - 1);
      assert (Shl(a, k) + u) / 2 == Shl(a, k - 1) + u / 2;
    }
  }

  lemma {:induction false} ShlAdd(x: nat, m: nat, n: nat)
    ensures Shl(x, m + n) == Shl(Shl(x, n), m)
  {
    if m > 0 { ShlAdd(x, m - 1, n); }
  }

  lemma ShlByFour(x: nat)
    ensures Shl(x, 4) == 16 * x
  {
    assert Shl(x, 1) == 2 * x;
    assert Shl(x, 2) == 4 * x;
    assert Shl(x, 3) == 8 * x;
  }

  lemma ShlByOctet(x: nat)
    ensures Shl(x, 8) == 0x100 * x
  {
    ShlByFour(x);
    ShlByFour(16 * x);
    ShlAdd(x, 4, 4);
  }

  lemma ShlByOctets(x: nat)
    ensures Shl(x, 8) == 0x100 * x
    ensures Shl(x, 16) == 0x1_0000 * x
    ensures Shl(x, 24) == 0x100_0000 * x
    ensures Shl(x, 32) == 0x1_0000_0000 * x
  {
    ShlByOctet(x);
    ShlByOctet(0x100 * x);
    ShlByOctet(0x1_0000 * x);
    ShlByOctet(0x100_0000 * x);
    ShlAdd(x, 8, 8);
    ShlAdd(x, 8, 16);
    ShlAdd(x, 8, 24);
  }

  // ---------------------------------------------------------------- octets and masks

  /** The four bytes of an address or of a mask, most significant first. */
  type Octets = s: seq<nat> | |s| == 4 && s[0] < 256 && s[1] < 256 && s[2] < 256 && s[3] < 256
    witness [0, 0, 0, 0]

  function ToOctets(a: Addr): Octets {
    [a / 0x100_0000, a / 0x1_0000 % 0x100, a / 0x100 % 0x100, a % 0x100]
  }

  function Value(o: Octets): Addr {
    ((o[0] * 0x100 + o[1]) * 0x100 + o[2]) * 0x100 + o[3]
  }

  lemma OctetsRoundTrip(a: Addr)
    ensures Value(ToOctets(a)) == a
  {
    assert a / 0x1_0000 == a / 0x100 / 0x100;
    assert a / 0x100_0000 == a / 0x1_0000 / 0x100;
  }

  lemma LastOctet(p: nat, q: nat, u: nat, v: nat)
    requires u < 256 && v < 256
    ensures p * 0x100 + u == q * 0x100 + v <==> p == q && u == v
  {
  }

  lemma ValueInjective(x: Octets, y: Octets)
    ensures Value(x) == Value(y) <==> x == y
  {
    LastOctet((x[0] * 0x100 + x[1]) * 0x100 + x[2], (y[0] * 0x100 + y[1]) * 0x100 + y[2], x[3], y[3]);
    LastOctet(x[0] * 0x100 + x[1], y[0] * 0x100 + y[1], x[2], y[2]);
    LastOctet(x[0], y[0], x[1], y[1]);
  }

  function OctetAnd(x: nat, y: nat): (r: nat)
    requires x < 256 && y < 256
    ensures r < 256
  {
    ShlByOctet(1);
    BitsBelow(x, y, 8);
    BitAnd(x, y)
  }

  function OctetOr(x: nat, y: nat): (r: nat)
    requires x < 256 && y < 256
    ensures r < 256
  {
    ShlByOctet(1);
    BitsBelow(x, y, 8);
    BitOr(x, y)
  }

  function OctetNot(x: nat): (r: nat)
    requires x < 256
    ensures r < 256
  {
    255 - x
  }

  function AndOctets(x: Octets, y: Octets): Octets {
    [OctetAnd(x[0], y[0]), OctetAnd(x[1], y[1]), OctetAnd(x[2], y[2]), OctetAnd(x[3], y[3])]
  }

  function OrNotOctets(x: Octets, y: Octets): Octets {
    [OctetOr(x[0], OctetNot(y[0])), OctetOr(x[1], OctetNot(y[1])),
     OctetOr(x[2], OctetNot(y[2])), OctetOr(x[3], OctetNot(y[3]))]
  }

  /** One octet of a mask: `k` ones followed by `8 - k` zeros. */
  function MaskOctet(k: nat): (r: nat)
    requires k <= 8
    ensures r < 256
  {
    [0x00, 0x80, 0xC0, 0xE0, 0xF0, 0xF8, 0xFC, 0xFE, 0xFF][k]
  }

  type PrefixLen = n: nat | n <= 32

  /** How many of the `len` leading ones of a mask fall into octet `i`. */
  function OnesIn(len: nat, i: nat): (r: nat)
    ensures r <= 8
  {
    if len <= 8 * i then 0 else if len >= 8 * i + 8 then 8 else len - 8 * i
  }

  /** net.CIDRMask: `len` ones, then zeros. */
  function MaskOctets(len: PrefixLen): Octets {
    [MaskOctet(OnesIn(len, 0)), MaskOctet(OnesIn(len, 1)), MaskOctet(OnesIn(len, 2)), MaskOctet(OnesIn(len, 3))]
  }

  lemma MaskOctetValue(k: nat)
    requires k <= 8
    ensures MaskOctet(k) == 256 - Shl(1, 8 - k)
  {
    assert k == 0 || k == 1 || k == 2 || k == 3 || k == 4 || k == 5 || k == 6 || k == 7 || k == 8;
  }

  lemma MaskedOctet(o: nat, k: nat)
    requires o < 256 && k <= 8
    ensures OctetAnd(o, MaskOctet(k)) == Floor(o, 8 - k)
    ensures OctetOr(o, OctetNot(MaskOctet(k))) == Floor(o, 8 - k) + Shl(1, 8 - k) - 1
  {
    hide Floor, Shl, BitAnd, BitOr, MaskOctet;
    MaskOctetValue(k);
    ShlByOctet(1);
    AndHigh(o, 8, 8 - k);
    OrLow(o, 8 - k);
  }

  lemma OctetFloor(a: nat, u: nat, h: nat)
    requires u < 256
    ensures h <= 8 ==> Floor(a * 0x100 + u, h) == a * 0x100 + Floor(u, h)
    ensures h >= 8 ==> Floor(a * 0x100 + u, h) == Floor(a, h - 8) * 0x100
    ensures Floor(u, 8) == 0
  {
    ShlByOctet(1);
    ShlByOctet(a);
    ShlByOctet(0);
    FloorJoin(a, u, 8, h);
    FloorJoin(0, u, 8, 8);
    if h >= 8 { ShlByOctet(Floor(a, h - 8)); }
  }

  /** What `v` becomes when its `h` low bits are set. */
  function Filled(v: nat, h: nat): nat { Floor(v, h) + Shl(1, h) - 1 }

  lemma NoHostBits(v: nat)
    ensures Floor(v, 0) == v && Filled(v, 0) == v
  {
  }

  /** Bits below the prefix in the number spelled by the first `n` octets. */
  function HostBits(len: nat, n: nat): nat {
    if len >= 8 * n then 0 else 8 * n - len
  }

  /** Masking one more octet clears the host bits of the number spelled so far. */
  lemma MaskStep(v: nat, o: nat, len: nat, n: nat)
    requires o < 256
    ensures Floor(v, HostBits(len, n)) * 0x100 + OctetAnd(o, MaskOctet(OnesIn(len, n)))
         == Floor(v * 0x100 + o, HostBits(len, n + 1))
  {
    hide Floor, Filled, Shl, OctetAnd, OctetOr, MaskOctet;
    NoHostBits(v);
    MaskedOctet(o, OnesIn(len, n));
    OctetFloor(v, o, HostBits(len, n + 1));
  }

  lemma ShlOneMoreOctet(h: nat)
    ensures Shl(1, h + 8) == 0x100 * Shl(1, h)
  {
    ShlAdd(1, 8, h);
    ShlByOctet(Shl(1, h));
  }

  lemma OctetFilled(a: nat, u: nat, h: nat)
    requires u < 256
    ensures h <= 8 ==> Filled(a * 0x100 + u, h) == a * 0x100 + Filled(u, h)
    ensures h >= 8 ==> Filled(a * 0x100 + u, h) == Filled(a, h - 8) * 0x100 + 0xFF
  {
    hide Floor, Shl;
    OctetFloor(a, u, h);
    if h >= 8 { ShlOneMoreOctet(h - 8); }
  }

  lemma FilledOctet(o: nat, k: nat)
    requires o < 256 && k <= 8
    ensures OctetOr(o, OctetNot(MaskOctet(k))) == Filled(o, 8 - k)
    ensures Filled(o, 8) == 0xFF
  {
    hide Floor, Shl, OctetOr, MaskOctet;
    MaskedOctet(o, k);
    OctetFloor(0, o, 8);
    ShlByOctet(1);
  }

  lemma FillStep(v: nat, o: nat, len: nat, n: nat)
    requires o < 256
    ensures Filled(v, HostBits(len, n)) * 0x100 + OctetOr(o, OctetNot(MaskOctet(OnesIn(len, n))))
         == Filled(v * 0x100 + o, HostBits(len, n + 1))
  {
    hide Filled, OctetOr, MaskOctet;
    NoHostBits(v);
    FilledOctet(o, OnesIn(len, n));
    OctetFilled(v, o, HostBits(len, n + 1));
  }

  /** Masking octet by octet clears the host bits of the number. */
  lemma MaskedValue(x: Octets, len: PrefixLen)
    ensures Value(AndOctets(x, MaskOctets(len))) == Floor(Value(x), 32 - len)
  {
    hide Floor, Filled, OctetAnd, MaskOctet;
    NoHostBits(0);
    MaskStep(0, x[0], len, 0);
    MaskStep(x[0], x[1], len, 1);
    MaskStep(x[0] * 0x100 + x[1], x[2], len, 2);
    MaskStep((x[0] * 0x100 + x[1]) * 0x100 + x[2], x[3], len, 3);
  }

  /** Setting the bits outside the mask octet by octet sets the host bits of the number. */
  lemma FilledValue(x: Octets, len: PrefixLen)
    ensures Value(OrNotOctets(x, MaskOctets(len))) == Filled(Value(x), 32 - len)
  {
    hide Filled, OctetOr, MaskOctet;
    NoHostBits(0);
    FillStep(0, x[0], len, 0);
    FillStep(x[0], x[1], len, 1);
    FillStep(x[0] * 0x100 + x[1], x[2], len, 2);
    FillStep((x[0] * 0x100 + x[1]) * 0x100 + x[2], x[3], len, 3);
  }

  // ---------------------------------------------------------------- blocks

  /** The cidr field of a pool: unparsable, or a host address with a prefix length. */
  datatype CidrText = BadCidr | Cidr(host: Addr, len: PrefixLen)

  /** net.IPNet: the masked address and the mask. */
  datatype IPNet = IPNet(ip: Octets, mask: Octets)

  /** The network that net.ParseCIDR returns beside the host address. */
  function NetOf(c: CidrText): IPNet
    requires c.Cidr?
  {
    IPNet(AndOctets(ToOctets(c.host), MaskOctets(c.len)), MaskOctets(c.len))
  }

  /** net.IPNet.Contains on an IPv4 address: equal network numbers, octet by octet. */
  predicate Contains(n: IPNet, x: Addr) {
    AndOctets(n.ip, n.mask) == AndOctets(ToOctets(x), n.mask)
  }

  lemma {:induction false} FloorBelow(a: nat, n: nat, h: nat)
    requires h <= n && a < Shl(1, n)
    ensures Floor(a, h) + Shl(1, h) <= Shl(1, n)
    decreases n
  {
    if n > 0 { FloorBelow(a / 2, n - 1, if h == 0 then 0 else h - 1); }
  }

  /** First address of the block, as a number. */
  function Network(c: CidrText): Addr
    requires c.Cidr?
  {
    Floor(c.host, 32 - c.len)
  }

  /** Last address of the block: all host bits set. */
  function Broadcast(c: CidrText): (r: Addr)
    requires c.Cidr?
    ensures r >= Network(c)
  {
    ShlByOctets(1);
    FloorBelow(c.host, 32, 32 - c.len);
    Filled(c.host, 32 - c.len)
  }

  lemma NetworkMeans(c: CidrText)
    requires c.Cidr?
    ensures Value(NetOf(c).ip) == Network(c)
  {
    hide Floor, AndOctets, MaskOctets, ToOctets, Value;
    var o := ToOctets(c.host);
    assert Value(o) == c.host by { OctetsRoundTrip(c.host); }
    MaskedValue(o, c.len);
  }

  lemma NetworkAligned(c: CidrText)
    requires c.Cidr?
    ensures Floor(Network(c), 32 - c.len) == Network(c)
  {
    hide Floor;
    FloorFiner(c.host, 32 - c.len, 32 - c.len);
  }

  lemma SameNetworkNumber(b: Octets, x: Octets, len: PrefixLen)
    requires Floor(Value(b), 32 - len) == Value(b)
    ensures AndOctets(b, MaskOctets(len)) == AndOctets(x, MaskOctets(len))
       <==> Value(b) <= Value(x) < Value(b) + Shl(1, 32 - len)
  {
    hide Floor, Shl, AndOctets, MaskOctets, Value;
    var u, v := AndOctets(b, MaskOctets(len)), AndOctets(x, MaskOctets(len));
    assert Value(u) == Floor(Value(b), 32 - len) by { MaskedValue(b, len); }
    assert Value(v) == Floor(Value(x), 32 - len) by { MaskedValue(x, len); }
    assert Value(u) == Value(v) <==> u == v by { ValueInjective(u, v); }
    FloorWithin(Value(b), Value(x), 32 - len);
  }

  /** The octet-wise membership test of package net is an interval test on numbers. */
  lemma ContainsMeans(c: CidrText, x: Addr)
    requires c.Cidr?
    ensures Contains(NetOf(c), x) <==> Network(c) <= x <= Broadcast(c)
  {
    hide Floor, Shl, AndOctets, MaskOctets, ToOctets, Value;
    var b, o := NetOf(c).ip, ToOctets(x);
    assert Value(b) == Network(c) by { NetworkMeans(c); }
    assert Value(o) == x by { OctetsRoundTrip(x); }
    NetworkAligned(c);
    SameNetworkNumber(b, o, c.len);
  }

  /** The last address computed from the masked address, as LoadCIDR does, and the one computed
      from the host address, as NewIPSubnet does, are the same. */
  lemma BroadcastFromEither(c: CidrText)
    requires c.Cidr?
    ensures Value(OrNotOctets(NetOf(c).ip, NetOf(c).mask)) == Broadcast(c)
    ensures Value(OrNotOctets(ToOctets(c.host), NetOf(c).mask)) == Broadcast(c)
  {
    hide Floor, Shl, AndOctets, OrNotOctets, MaskOctets, ToOctets, Value;
    var b, o := NetOf(c).ip, ToOctets(c.host);
    assert Value(b) == Network(c) by { NetworkMeans(c); }
    assert Value(o) == c.host by { OctetsRoundTrip(c.host); }
    NetworkAligned(c);
    FilledValue(b, c.len);
    FilledValue(o, c.len);
  }

  /** Sets the host bits of a copy of `ip`, one octet after the other. */
  method FillHostBits(ip: Octets, mask: Octets) returns (r: Octets)
    ensures r == OrNotOctets(ip, mask)
  {
    var filled := new nat[4](i requires 0 <= i < 4 => ip[i]);
    for i := 0 to 4
      invariant forall j :: 0 <= j < i ==> filled[j] == OrNotOctets(ip, mask)[j]
      invariant forall j :: i <= j < 4 ==> filled[j] == ip[j]
    {
      filled[i] := OctetOr(filled[i], OctetNot(mask[i]));
    }
    assert filled[..] == OrNotOctets(ip, mask);
    r := filled[..];
  }

  datatype Block = Block(ipNet: IPNet, network: Addr, broadcast: Addr)

  method LoadCIDR(c: CidrText) returns (r: Result<Block, ()>)
    ensures r.Err? <==> c.BadCidr?
    ensures r.Ok? ==> r.value == Block(NetOf(c), Network(c), Broadcast(c))
  {
    if c.BadCidr? {
      return Err(());
    }
    var ipNet := NetOf(c);
    var broadcastIP := FillHostBits(ipNet.ip, ipNet.mask);
    NetworkMeans(c);
    BroadcastFromEither(c);
    r := Ok(Block(ipNet, Value(ipNet.ip), Value(broadcastIP)));
  }

  // ---------------------------------------------------------------- overlap

  predicate InBlock(c: CidrText, x: Addr)
    requires c.Cidr?
  {
    Network(c) <= x <= Broadcast(c)
  }

  lemma AlignedNest(a: nat, b: nat, x: nat, h: nat, g: nat)
    requires g <= h && Floor(a, h) == a && Floor(b, g) == b
    requires a <= x < a + Shl(1, h) && b <= x < b + Shl(1, g)
    ensures a <= b < a + Shl(1, h)
  {
    hide Floor, Shl;
    FloorWithin(a, x, h);
    FloorWithin(b, x, g);
    FloorCoarser(x, h, g);
    FloorWithin(a, b, h);
  }

  lemma SharedAddressNests(c: CidrText, d: CidrText, x: Addr)
    requires c.Cidr? && d.Cidr? && InBlock(c, x) && InBlock(d, x)
    requires c.len <= d.len
    ensures InBlock(c, Network(d))
  {
    hide Floor, Shl;
    NetworkAligned(c);
    NetworkAligned(d);
    AlignedNest(Network(c), Network(d), x, 32 - c.len, 32 - d.len);
  }

  /** Two blocks share an address exactly when one of them contains the other's base address. */
  lemma OverlapTest(c: CidrText, d: CidrText)
    requires c.Cidr? && d.Cidr?
    ensures Contains(NetOf(c), Network(d)) || Contains(NetOf(d), Network(c))
       <==> exists x: Addr :: InBlock(c, x) && InBlock(d, x)
  {
    ContainsMeans(c, Network(d));
    ContainsMeans(d, Network(c));
    if x: Addr :| InBlock(c, x) && InBlock(d, x) {
      if c.len <= d.len { SharedAddressNests(c, d, x); } else { SharedAddressNests(d, c, x); }
    }
    assert InBlock(c, Network(c)) && InBlock(d, Network(d));
  }
}

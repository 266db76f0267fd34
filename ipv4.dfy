/** IPv4 addresses as 32-bit values, their octets, `nextIP`, and the network
    arithmetic of `net.IPNet` (base address, mask, broadcast, containment)
    as the allocator in ip4_manager.go and network.go uses them. */
module IPv4 {
  import opened Bits

  const AddrSpace: nat := 0x1_0000_0000

  /** An address is the big-endian value of its four octets; the Go code keys
      its maps by `[4]byte`, which is the same thing. */
  type Addr = x: int | 0 <= x < 0x1_0000_0000

  lemma Pow2Of32()
    ensures Pow2(8) == 0x100 && Pow2(16) == 0x1_0000 && Pow2(24) == 0x100_0000
    ensures Pow2(32) == AddrSpace
  {
  }

  /** Big-endian value of four octets (`binary.BigEndian.Uint32`). */
  function Pack(o: seq<byte>): (a: Addr)
    requires |o| == 4
  {
    o[0] as int * 0x100_0000 + o[1] as int * 0x1_0000 + o[2] as int * 0x100 + o[3] as int
  }

  /** The four octets of an address, most significant first (`IP.To4()`). */
  function Octets(a: Addr): (o: seq<byte>)
    ensures |o| == 4 && Pack(o) == a
  {
    OctetsInRange(a);
    var o: seq<byte> := [a / 0x100_0000, (a / 0x1_0000) % 0x100, (a / 0x100) % 0x100, a % 0x100];
    PackOfOctets(a);
    o
  }

  lemma OctetsInRange(a: Addr)
    ensures 0 <= a / 0x100_0000 < 0x100
  {
  }

  lemma PackOfOctets(a: Addr)
    ensures (a / 0x100_0000) * 0x100_0000 + ((a / 0x1_0000) % 0x100) * 0x1_0000
            + ((a / 0x100) % 0x100) * 0x100 + a % 0x100 == a
  {
    var q1 := a / 0x100;
    assert a == q1 * 0x100 + a % 0x100;
    var q2 := q1 / 0x100;
    assert q1 == q2 * 0x100 + q1 % 0x100;
    var q3 := q2 / 0x100;
    assert q2 == q3 * 0x100 + q2 % 0x100;
    DivModUnique(a, 0x1_0000, q2, (q1 % 0x100) * 0x100 + a % 0x100);
    DivModUnique(a, 0x100_0000, q3, (q2 % 0x100) * 0x1_0000 + (q1 % 0x100) * 0x100 + a % 0x100);
  }

  lemma OctetsOfPack(o: seq<byte>)
    requires |o| == 4
    ensures Octets(Pack(o)) == o
  {
    var a := Pack(o);
    var o0, o1, o2, o3: int := o[0], o[1], o[2], o[3];
    DivModUnique(a, 0x100, (o0 * 0x100 + o1) * 0x100 + o2, o3);
    DivModUnique(a / 0x100, 0x100, o0 * 0x100 + o1, o2);
    DivModUnique(a, 0x1_0000, o0 * 0x100 + o1, o2 * 0x100 + o3);
    DivModUnique(a / 0x1_0000, 0x100, o0, o1);
    DivModUnique(a, 0x100_0000, o0, o1 * 0x1_0000 + o2 * 0x100 + o3);
  }

  /** `nextIP(ip, inc)` (network.go:181-190): the octets are packed into a
      64-bit `uint`, `inc` is added with 64-bit wrap-around, and the low four
      bytes are split out again. */
  function NextIP(ip: seq<byte>, inc: nat): (r: seq<byte>)
    requires |ip| == 4 && inc < 0x1_0000_0000_0000_0000
    ensures |r| == 4
    ensures Pack(r) == (Pack(ip) + inc) % AddrSpace
  {
    var octets := (ip[0] as int * 0x100_0000 + ip[1] as int * 0x1_0000 + ip[2] as int * 0x100 + ip[3] as int + inc)
                  % 0x1_0000_0000_0000_0000;
    var r := [(octets / 0x100_0000) % 0x100, (octets / 0x1_0000) % 0x100,
              (octets / 0x100) % 0x100, octets % 0x100];
    NextIPValue(Pack(ip) + inc, octets);
    r
  }

  /** The octets `NextIP` extracts from the 64-bit sum are those of the sum
      taken modulo 2^32. */
  lemma NextIPValue(sum: nat, octets: nat)
    requires sum < 0x2_0000_0000_0000_0000 && octets == sum % 0x1_0000_0000_0000_0000
    ensures (octets / 0x100_0000) % 0x100 * 0x100_0000 + (octets / 0x1_0000) % 0x100 * 0x1_0000
            + (octets / 0x100) % 0x100 * 0x100 + octets % 0x100 == sum % AddrSpace
  {
    var w := octets % AddrSpace;
    var hi := octets / AddrSpace;
    assert octets == hi * AddrSpace + w;
    WideModulo(sum);
    OctetOfWide(hi, w, 0x100_0000, 1);
    OctetOfWide(hi, w, 0x1_0000, 0x100);
    OctetOfWide(hi, w, 0x100, 0x1_0000);
    OctetOfWide(hi, w, 1, 0x100_0000);
    PackOfOctets(w);
  }

  lemma WideModulo(sum: nat)
    ensures (sum % 0x1_0000_0000_0000_0000) % AddrSpace == sum % AddrSpace
  {
    var octets := sum % 0x1_0000_0000_0000_0000;
    var top := sum / 0x1_0000_0000_0000_0000;
    var w := octets % AddrSpace;
    assert sum == top * 0x1_0000_0000_0000_0000 + octets;
    assert octets == (octets / AddrSpace) * AddrSpace + w;
    DivModUnique(sum, AddrSpace, top * AddrSpace + octets / AddrSpace, w);
  }

  /** Bits above the low 32 do not reach any of the four octets. */
  lemma OctetOfWide(hi: nat, w: nat, d: nat, c: nat)
    requires w < AddrSpace && d > 0 && c > 0 && d * 0x100 * c == AddrSpace
    ensures ((hi * AddrSpace + w) / d) % 0x100 == (w / d) % 0x100
  {
    var x := hi * AddrSpace + w;
    assert x == d * (hi * 0x100 * c + w / d) + w % d;
    DivModUnique(x, d, hi * 0x100 * c + w / d, w % d);
    var v := w / d;
    assert v == 0x100 * (v / 0x100) + v % 0x100;
    DivModUnique(x / d, 0x100, hi * c + v / 0x100, v % 0x100);
  }

  /** The successor of an address modulo 2^32, which is what
      `nextIP(ip, 1)` computes (see `SuccIsNextIP`). */
  function Succ(a: Addr): (r: Addr)
    ensures r == (a + 1) % AddrSpace
  {
    if a == AddrSpace - 1 then 0 else a + 1
  }

  /** `nextIP(ip, 1)` on the octets of `a` gives the octets of `Succ(a)`. */
  lemma SuccIsNextIP(a: Addr)
    ensures NextIP(Octets(a), 1) == Octets(Succ(a))
  {
    OctetsOfPack(NextIP(Octets(a), 1));
  }

  /** `nextIP` wraps from 255.255.255.255 to 0.0.0.0. */
  lemma NextIPWraps()
    ensures NextIP([255, 255, 255, 255], 1) == [0, 0, 0, 0]
  {
    OctetsOfPack(NextIP([255, 255, 255, 255], 1));
    OctetsOfPack([0, 0, 0, 0]);
  }

  /** Go's `^` on a 32-bit word. */
  function Not32(m: Addr): Addr
  {
    0xFFFF_FFFF - m
  }

  /** A network as `net.IPNet` holds it: the network number and the mask. */
  datatype Network = Network(base: Addr, mask: Addr)

  /** The mask of a /p network, `net.CIDRMask(p, 32)`: p leading one bits. */
  function PrefixMask(p: nat): (m: Addr)
    requires p <= 32
    ensures m + Pow2(32 - p) == AddrSpace
  {
    HostSizeFits(p);
    AddrSpace - Pow2(32 - p)
  }

  lemma HostSizeFits(p: nat)
    requires p <= 32
    ensures Pow2(32 - p) <= AddrSpace
  {
    Pow2Of32();
    Pow2Monotone(32 - p, 32);
  }

  /** `net.IPNet.Contains`: `a` agrees with the network number on every mask bit. */
  predicate Contains(n: Network, a: Addr)
  {
    And(a, n.mask) == And(n.base, n.mask)
  }

  /** The broadcast address, network number OR inverted mask
      (ip4_manager.go:43-48; computed octet by octet in `ComputeBroadcast`). */
  function Broadcast(n: Network): Addr
  {
    OrWithin32(n.base, Not32(n.mask));
    Or(n.base, Not32(n.mask))
  }

  lemma OrWithin32(a: Addr, b: Addr)
    ensures Or(a, b) < AddrSpace
  {
    Pow2Of32();
    OrBound(a, b, 32);
  }

  /** What `net.ParseCIDR` stores for `ip/p`: the address with its host bits
      cleared, and the /p mask. */
  function CidrNetwork(ip: Addr, p: nat): (n: Network)
    requires p <= 32
  {
    Network(And(ip, PrefixMask(p)), PrefixMask(p))
  }

  /** n is a /p network whose number has no host bits set, as every network
      `net.ParseCIDR` returns is. */
  predicate IsCidr(n: Network, p: nat)
  {
    p <= 32 && n.mask == PrefixMask(p) && And(n.base, n.mask) == n.base
  }

  /** An address strictly between the network number and the broadcast. */
  predicate IsHost(n: Network, a: Addr)
  {
    Contains(n, a) && a != n.base && a != Broadcast(n)
  }

  /** A /p network spans the 2^(32-p) addresses from its number to its
      broadcast address. */
  lemma CidrLayout(n: Network, p: nat)
    requires IsCidr(n, p)
    ensures n.base % Pow2(32 - p) == 0
    ensures Broadcast(n) == n.base + Pow2(32 - p) - 1
  {
    var h := 32 - p;
    var q := CleanNumber(n, p);
    OrLowOnes(q, 0, h);
    assert Not32(n.mask) == Pow2(h) - 1;
  }

  /** `Contains` accepts exactly the addresses from the network number to
      the broadcast address. */
  lemma ContainsRange(n: Network, p: nat, a: Addr)
    requires IsCidr(n, p)
    ensures Contains(n, a) <==> n.base <= a <= Broadcast(n)
  {
    CidrLayout(n, p);
    ContainsAt(n, p, a);
  }

  /** Splits an address into its top p bits and its low 32-p bits. */
  lemma Split(a: Addr, p: nat) returns (q: nat, r: nat)
    requires p <= 32
    ensures q == a / Pow2(32 - p) && r == a % Pow2(32 - p)
    ensures a == q * Pow2(32 - p) + r && r < Pow2(32 - p) && q < Pow2(p)
  {
    SplitSize(p);
    q, r := DivBound(a, Pow2(32 - p), Pow2(p));
  }

  lemma SplitSize(p: nat)
    requires p <= 32
    ensures Pow2(p) * Pow2(32 - p) == AddrSpace
  {
    Pow2Add(p, 32 - p);
    assert p + (32 - p) == 32;
    Pow2Of32();
  }

  lemma DivBound(a: nat, d: nat, m: nat) returns (q: nat, r: nat)
    requires d > 0 && a < m * d
    ensures q == a / d && r == a % d
    ensures a == q * d + r && r < d && q < m
  {
    q, r := a / d, a % d;
    if q >= m {
      MulMonotone(d, m, q);
    }
  }

  /** Masking with /p keeps the top p bits and clears the rest. */
  lemma MaskedValue(a: Addr, p: nat, q: nat, r: nat)
    requires p <= 32 && r < Pow2(32 - p) && q < Pow2(p)
    requires a == q * Pow2(32 - p) + r
    ensures And(a, PrefixMask(p)) == q * Pow2(32 - p)
  {
    var h := 32 - p;
    AndHighOnes(q, r, p, h);
    assert p + h == 32;
    Pow2Of32();
  }

  /** `CidrNetwork` clears the host bits: its number is the address rounded
      down to a multiple of 2^(32-p), and it is a /p network. */
  lemma CidrNetworkIsCidr(ip: Addr, p: nat)
    requires p <= 32
    ensures IsCidr(CidrNetwork(ip, p), p)
    ensures CidrNetwork(ip, p).base == (ip / Pow2(32 - p)) * Pow2(32 - p)
  {
    var q, r := Split(ip, p);
    MaskedValue(ip, p, q, r);
    MaskedValue(q * Pow2(32 - p), p, q, 0);
  }

  /** The network number of a /p network is a multiple of 2^(32-p). */
  lemma CleanNumber(n: Network, p: nat) returns (q: nat)
    requires IsCidr(n, p)
    ensures q == n.base / Pow2(32 - p) && n.base % Pow2(32 - p) == 0
    ensures n.base == q * Pow2(32 - p) && q < Pow2(p)
  {
    var r;
    q, r := Split(n.base, p);
    MaskedValue(n.base, p, q, r);
  }

  lemma MulMonotone(d: nat, x: nat, y: nat)
    requires x <= y
    ensures d * x <= d * y
  {
    assert d * y == d * x + d * (y - x);
  }

  lemma ContainsAt(n: Network, p: nat, a: Addr)
    requires IsCidr(n, p)
    ensures Contains(n, a) <==> n.base <= a < n.base + Pow2(32 - p)
  {
    var size := Pow2(32 - p);
    var q := CleanNumber(n, p);
    var qa, ra := Split(a, p);
    MaskedValue(a, p, qa, ra);
    assert Contains(n, a) <==> qa * size == q * size;
    if qa * size == q * size {
      MulCancel(size, qa, q);
    }
    if n.base <= a < n.base + size {
      DivModUnique(a, size, q, a - n.base);
    }
  }

  lemma MulCancel(d: nat, x: nat, y: nat)
    requires d > 0 && x * d == y * d
    ensures x == y
  {
    if x < y {
      MulMonotone(d, x + 1, y);
    } else if y < x {
      MulMonotone(d, y + 1, x);
    }
  }

  /** An address of a /p network other than its number and broadcast lies
      strictly between the two. */
  lemma HostRange(n: Network, p: nat, a: Addr)
    requires IsCidr(n, p)
    ensures IsHost(n, a) <==> n.base < a < Broadcast(n)
  {
    ContainsRange(n, p, a);
  }

  /** `ip | ^mask` (ip4_manager.go:74) is the broadcast address of the network
      for every address inside it. */
  lemma OwnBroadcast(n: Network, p: nat, a: Addr)
    requires IsCidr(n, p) && Contains(n, a)
    ensures Or(a, Not32(n.mask)) == Broadcast(n)
  {
    var h := 32 - p;
    var size := Pow2(h);
    var q := CleanNumber(n, p);
    var qa, ra := Split(a, p);
    MaskedValue(a, p, qa, ra);
    MulCancel(size, qa, q);
    OrLowOnes(qa, ra, h);
    CidrLayout(n, p);
    assert Not32(n.mask) == size - 1;
  }

  /** An address with no host bits set is its own /p network number, and
      the network runs from it to `ip + size - 1`. */
  lemma AlignedNetwork(ip: Addr, p: nat, size: nat)
    requires p <= 32 && size == Pow2(32 - p) && ip % size == 0
    ensures var n := CidrNetwork(ip, p);
      n.base == ip && IsCidr(n, p) && Not32(n.mask) == size - 1 && Broadcast(n) == ip + size - 1
  {
    var n := CidrNetwork(ip, p);
    CidrNetworkIsCidr(ip, p);
    assert ip == (ip / size) * size + ip % size;
    assert n.base == ip;
    assert n.mask + size == AddrSpace;
    CidrLayout(n, p);
  }

  /** Every address of a /p network lies in the same aligned block of 2^k
      addresses as the network number, for any k >= 32 - p. */
  lemma SameBlock(n: Network, p: nat, a: Addr, k: nat)
    requires IsCidr(n, p) && 32 - p <= k && Contains(n, a)
    ensures a / Pow2(k) == n.base / Pow2(k)
  {
    var h := 32 - p;
    var q := CleanNumber(n, p);
    ContainsAt(n, p, a);
    Pow2Add(k - h, h);
    assert k - h + h == k;
    BlockOf(q, Pow2(h), Pow2(k - h), a - n.base);
  }

  /** q*H + d, for d < H, lies in block q / c of size c*H. */
  lemma BlockOf(q: nat, H: nat, c: nat, d: nat)
    requires H > 0 && c > 0 && d < H
    ensures (q * H + d) / (c * H) == q / c && (q * H) / (c * H) == q / c
  {
    var Q, j := q / c, q % c;
    assert q * H == (Q * c + j) * H;
    assert (Q * c + j) * H == (c * H) * Q + j * H;
    MulMonotone(H, j + 1, c);
    assert j * H + d < c * H;
    DivModUnique(q * H + d, c * H, Q, j * H + d);
    DivModUnique(q * H, c * H, Q, j * H);
  }

  lemma Pow2Of8()
    ensures Pow2(8) == 0x100
  {
  }

  /** OR of two octets, `ip4Byte[i] | ^mask4Byte[i]` (ip4_manager.go:46). */
  function OctetOr(x: byte, y: byte): (r: byte)
    ensures x <= r && y <= r
  {
    Pow2Of8();
    OrBound(x, y, 8);
    Or(x, y)
  }

  /** OR-ing octet by octet is OR-ing the packed addresses. */
  lemma OrOctets(x: seq<byte>, y: seq<byte>)
    requires |x| == 4 && |y| == 4
    ensures Pack([OctetOr(x[0], y[0]), OctetOr(x[1], y[1]), OctetOr(x[2], y[2]), OctetOr(x[3], y[3])])
            == Or(Pack(x), Pack(y))
  {
    Pow2Of8();
    var x0: nat, x1: nat, x2: nat, x3: nat := x[0], x[1], x[2], x[3];
    var y0: nat, y1: nat, y2: nat, y3: nat := y[0], y[1], y[2], y[3];
    var a1: nat, b1: nat := OrStep8(x0, x1, y0, y1);
    var a2: nat, b2: nat := OrStep8(a1, x2, b1, y2);
    var a3: nat, b3: nat := OrStep8(a2, x3, b2, y3);
    assert Pack(x) == a3 && Pack(y) == b3;
  }

  /** One octet step of `OrOctets`: appending an octet to both operands. */
  lemma OrStep8(a: nat, b: nat, c: nat, d: nat) returns (x: nat, y: nat)
    requires b < 0x100 && d < 0x100
    ensures x == a * 0x100 + b && y == c * 0x100 + d
    ensures Or(x, y) == Or(a, c) * 0x100 + Or(b, d)
  {
    Pow2Of8();
    x, y := a * 0x100 + b, c * 0x100 + d;
    OrSplitBy(a, b, c, d, 8, 0x100);
  }

  /** `^b` on each octet of a four-octet buffer. */
  function Inverted(m: seq<byte>): (r: seq<byte>)
    requires |m| == 4
    ensures |r| == 4 && forall i :: 0 <= i < 4 ==> r[i] as int + m[i] as int == 255
  {
    var m0: int, m1: int, m2: int, m3: int := m[0], m[1], m[2], m[3];
    [255 - m0, 255 - m1, 255 - m2, 255 - m3]
  }

  /** Inverting the octets one by one is inverting the packed word. */
  lemma NotOctets(m: seq<byte>)
    requires |m| == 4
    ensures Pack(Inverted(m)) == Not32(Pack(m))
  {
  }

  /** The octet-wise OR of two four-octet buffers. */
  function OctetwiseOr(x: seq<byte>, y: seq<byte>): (r: seq<byte>)
    requires |x| == 4 && |y| == 4
    ensures |r| == 4 && forall i :: 0 <= i < 4 ==> r[i] == OctetOr(x[i], y[i])
    ensures Pack(r) == Or(Pack(x), Pack(y))
  {
    OrOctets(x, y);
    [OctetOr(x[0], y[0]), OctetOr(x[1], y[1]), OctetOr(x[2], y[2]), OctetOr(x[3], y[3])]
  }

  /** The broadcast loop of ip4_manager.go:43-48 and network.go:43-48, over a
      four-octet buffer. */
  method ComputeBroadcast(ip: Addr, mask: Addr) returns (b: Addr)
    ensures b == Or(ip, Not32(mask))
  {
    var ipOctets, inverted := Octets(ip), Inverted(Octets(mask));
    var target := OctetwiseOr(ipOctets, inverted);
    var broadcast := new byte[4];
    for i := 0 to 4
      invariant forall j :: 0 <= j < i ==> broadcast[j] == target[j]
    {
      broadcast[i] := OctetOr(ipOctets[i], inverted[i]);
    }
    assert broadcast[..] == target;
    NotOctets(Octets(mask));
    b := Pack(broadcast[..]);
  }
}

/** Network and mask validation of network/network.go: `checkMask` looks the
    mask up in the package table `octets`, `checkIPAddress` refuses an
    address that is its own broadcast address, and `NewNetwork` runs the two
    checks in that order. */
module MaskCheck {
  import opened Bits
  import opened IPv4

  /** The two errors of network/network.go:15-16. */
  datatype NetError = NetworkIsNotCorrect | NetMaskIsNotCorrect

  /** A check's result: Go's `nil` error, or the error it returns. */
  datatype Verdict = Passed | Refused(err: NetError)

  /** The `octets` table as written (network/network.go:17). Its seventh
      entry is 242; the mask octet with six leading ones is 252. */
  const MaskOctets: seq<byte> := [0, 128, 192, 224, 240, 248, 242, 254, 255]

  /** The table with 252 in place of 242: entry k is the octet with k
      leading one bits. */
  const PrefixOctets: seq<byte> := [0, 128, 192, 224, 240, 248, 252, 254, 255]

  /** The four mask shapes `checkMask` tests (network/network.go:48-57):
      `shape` leading octets 255, then v, then zero octets. */
  function MaskShape(shape: nat, v: byte): (m: seq<byte>)
    requires shape < 4
    ensures |m| == 4 && m[shape] == v
    ensures forall i :: 0 <= i < 4 ==> m[i] == (if i < shape then 255 else if i == shape then v else 0)
  {
    if shape == 0 then [v, 0, 0, 0]
    else if shape == 1 then [255, v, 0, 0]
    else if shape == 2 then [255, 255, v, 0]
    else [255, 255, 255, v]
  }

  /** The masks `checkMask` accepts with `table` as its `octets` table. */
  predicate MaskAccepted(table: seq<byte>, m: seq<byte>)
  {
    exists i, shape :: 0 <= i < |table| && 0 <= shape < 4 && m == MaskShape(shape, table[i])
  }

  /** `checkMask` (network/network.go:46-62): the loop over the table returns
      `nil` at the first entry that completes one of the four shapes, and
      `ErrNetMaskIsNotCorrect` after the last entry. */
  method CheckMask(table: seq<byte>, first: byte, second: byte, third: byte, fourth: byte) returns (r: Verdict)
    ensures r == Passed <==> MaskAccepted(table, [first, second, third, fourth])
    ensures r != Passed ==> r == Refused(NetMaskIsNotCorrect)
  {
    var m := [first, second, third, fourth];
    for i := 0 to |table|
      invariant forall j, shape :: 0 <= j < i && 0 <= shape < 4 ==> m != MaskShape(shape, table[j])
    {
      var val := table[i];
      if first == val && second == 0 && third == 0 && fourth == 0 {
        assert m == MaskShape(0, table[i]);
        return Passed;
      }
      if first == 255 && second == val && third == 0 && fourth == 0 {
        assert m == MaskShape(1, table[i]);
        return Passed;
      }
      if first == 255 && second == 255 && third == val && fourth == 0 {
        assert m == MaskShape(2, table[i]);
        return Passed;
      }
      if first == 255 && second == 255 && third == 255 && fourth == val {
        assert m == MaskShape(3, table[i]);
        return Passed;
      }
      forall shape | 0 <= shape < 4
        ensures m != MaskShape(shape, table[i])
      {
        var s := MaskShape(shape, table[i]);
        assert s[0] == (if shape == 0 then val else 255);
      }
    }
    r := Refused(NetMaskIsNotCorrect);
  }

  /** Every host bit of `ip` under `mask` is one. */
  predicate HostBitsAllSet(ip: Addr, mask: Addr)
  {
    And(ip, Not32(mask)) == Not32(mask)
  }

  /** `checkIPAddress` (network/network.go:64-73): `ErrNetworkIsNotCorrect`
      when `ip | ^mask` equals `ip`, that is, when every host bit of the
      address is set; in particular with the mask 255.255.255.255, which has
      no host bits. */
  function CheckIPAddress(ip: Addr, mask: Addr): (r: Verdict)
    ensures r == Passed <==> !HostBitsAllSet(ip, mask)
    ensures r != Passed ==> r == Refused(NetworkIsNotCorrect)
    ensures mask == 0xFFFF_FFFF ==> r == Refused(NetworkIsNotCorrect)
  {
    OrAbsorbs(ip, Not32(mask));
    if Or(ip, Not32(mask)) == ip then Refused(NetworkIsNotCorrect) else Passed
  }

  /** The network number of a /p network with p < 32 passes
      `checkIPAddress`; its broadcast address does not. */
  lemma NetworkNumberPasses(n: Network, p: nat)
    requires IsCidr(n, p) && p < 32
    ensures CheckIPAddress(n.base, n.mask) == Passed
    ensures CheckIPAddress(Broadcast(n), n.mask) == Refused(NetworkIsNotCorrect)
  {
    assert Or(n.base, Not32(n.mask)) != n.base by {
      CidrLayout(n, p);
      Pow2Monotone(1, 32 - p);
      assert Pow2(1) == 2;
    }
    assert Or(Broadcast(n), Not32(n.mask)) == Broadcast(n) by {
      ContainsRange(n, p, Broadcast(n));
      OwnBroadcast(n, p, Broadcast(n));
    }
  }

  /** What `NewNetwork` returns: the address and mask octets, both empty
      (Go's `nil`) on failure. */
  datatype IPNet = IPNet(ip: seq<byte>, mask: seq<byte>)

  /** The twelve bytes `net.IPv4` puts before the four octets, the prefix
      of IPv4-mapped IPv6 addresses (::ffff:0:0/96). */
  const V4InV6Prefix: seq<byte> := [0, 0, 0, 0, 0, 0, 0, 0, 0, 0, 0xFF, 0xFF]

  /** `NewNetwork` (network/network.go:20-44): the mask is checked first,
      then the address; on failure both fields are empty and the error is
      that check's, and otherwise the address comes back as given, host
      bits included, in the 16-byte form of `net.IPv4`, with the four-byte
      mask of `net.IPv4Mask`. */
  method NewNetwork(table: seq<byte>, ip1: byte, ip2: byte, ip3: byte, ip4: byte,
                    m1: byte, m2: byte, m3: byte, m4: byte) returns (net: IPNet, v: Verdict)
    ensures !MaskAccepted(table, [m1, m2, m3, m4]) ==>
      net == IPNet([], []) && v == Refused(NetMaskIsNotCorrect)
    ensures MaskAccepted(table, [m1, m2, m3, m4]) && HostBitsAllSet(Pack([ip1, ip2, ip3, ip4]), Pack([m1, m2, m3, m4])) ==>
      net == IPNet([], []) && v == Refused(NetworkIsNotCorrect)
    ensures MaskAccepted(table, [m1, m2, m3, m4]) && !HostBitsAllSet(Pack([ip1, ip2, ip3, ip4]), Pack([m1, m2, m3, m4])) ==>
      net == IPNet(V4InV6Prefix + [ip1, ip2, ip3, ip4], [m1, m2, m3, m4]) && v == Passed
  {
    v := CheckMask(table, m1, m2, m3, m4);
    if v != Passed {
      return IPNet([], []), v;
    }
    var ip, mask := V4InV6Prefix + [ip1, ip2, ip3, ip4], [m1, m2, m3, m4];
    v := CheckIPAddress(Pack(ip[12..]), Pack(mask));
    if v != Passed {
      return IPNet([], []), v;
    }
    net := IPNet(ip, mask);
  }

  /** With the table as written, 255.255.255.242, which is no prefix mask,
      passes, and 255.255.255.252, the /30 mask, is refused; 0.0.0.0 and
      255.0.0.0 pass because the table holds 0. */
  lemma MaskTableAsWritten()
    ensures MaskAccepted(MaskOctets, [255, 255, 255, 242])
    ensures forall p :: 0 <= p <= 32 ==> Pack([255, 255, 255, 242]) != PrefixMask(p)
    ensures !MaskAccepted(MaskOctets, [255, 255, 255, 252])
    ensures Pack([255, 255, 255, 252]) == PrefixMask(30)
    ensures MaskAccepted(MaskOctets, [0, 0, 0, 0]) && MaskAccepted(MaskOctets, [255, 0, 0, 0])
  {
    assert [255, 255, 255, 242] == MaskShape(3, MaskOctets[6]);
    assert [0, 0, 0, 0] == MaskShape(0, MaskOctets[0]);
    assert [255, 0, 0, 0] == MaskShape(0, MaskOctets[8]);
    forall p | 0 <= p <= 32
      ensures Pack([255, 255, 255, 242]) != PrefixMask(p)
    {
      NotFourteen(32 - p);
    }
    var m: seq<byte> := [255, 255, 255, 252];
    forall i, shape | 0 <= i < |MaskOctets| && 0 <= shape < 4
      ensures m != MaskShape(shape, MaskOctets[i])
    {
      var s := MaskShape(shape, MaskOctets[i]);
      if shape == 3 {
        assert s[3] == MaskOctets[i];
      } else {
        assert s[3] == 0;
      }
    }
    Pow2Of32();
    assert Pow2(2) == 4;
  }

  /** 14, the complement of 255.255.255.242, is no power of two. */
  lemma NotFourteen(k: nat)
    ensures Pow2(k) != 14
  {
    if k >= 4 {
      Pow2Monotone(4, k);
    } else {
      assert Pow2(k) <= 8;
    }
  }

  /** Entry k of the corrected table is 256 - 2^(8-k). */
  lemma PrefixOctet(k: nat)
    requires k <= 8
    ensures PrefixOctets[k] as int == 0x100 - Pow2(8 - k)
  {
    Pow2Of8();
  }

  /** The mask of shape j whose varying octet has k leading ones is the
      /(8j + k) mask. */
  lemma ShapeIsPrefix(j: nat, k: nat)
    requires j < 4 && k <= 8
    ensures Pack(MaskShape(j, PrefixOctets[k])) == PrefixMask(8 * j + k)
  {
    var low := 24 - 8 * j;
    ShapeValue(j, PrefixOctets[k]);
    PrefixOctet(k);
    Pow2Add(8 - k, low);
    assert 8 - k + low == 32 - (8 * j + k);
  }

  /** The value of a mask of shape j: all ones above its varying octet. */
  lemma ShapeValue(j: nat, v: byte)
    requires j < 4
    ensures Pack(MaskShape(j, v)) == AddrSpace - (0x100 - v) * Pow2(24 - 8 * j)
  {
    Pow2Of32();
  }

  /** Corrected: with 252 in the table, `checkMask` accepts exactly the
      prefix masks /0 to /32. */
  lemma PrefixTableExact(m: seq<byte>)
    requires |m| == 4
    ensures MaskAccepted(PrefixOctets, m) <==> exists p :: 0 <= p <= 32 && Pack(m) == PrefixMask(p)
  {
    if MaskAccepted(PrefixOctets, m) {
      var i, shape :| 0 <= i < |PrefixOctets| && 0 <= shape < 4 && m == MaskShape(shape, PrefixOctets[i]);
      ShapeIsPrefix(shape, i);
    }
    if p :| 0 <= p <= 32 && Pack(m) == PrefixMask(p) {
      var j, k := if p == 32 then 3 else p / 8, if p == 32 then 8 else p % 8;
      assert 8 * j + k == p;
      ShapeIsPrefix(j, k);
      OctetsOfPack(m);
      OctetsOfPack(MaskShape(j, PrefixOctets[k]));
      assert m == MaskShape(j, PrefixOctets[k]);
    }
  }
}

/** Network arithmetic of pkg/network/network.go: classifying the mask text,
    counting and ranging the addresses of a network with `math/big`, and the
    conversions `ipToInt` and `intToIP` between byte slices and integers.
    A Go `nil` slice is the empty sequence; `net.ParseIP(..).To4()` is an
    input, `None` when the text is not an IPv4 address. */
module NetworkRange {
  import opened Bits
  import opened IPv4

  datatype Option<T> = None | Some(value: T)

  /** A computation that either returns or panics at run time. */
  datatype Exec<T> = Returns(value: T) | Panics

  /** The errors of pkg/network/network.go:22-23, and the syntax error of
      `strconv.Atoi`. */
  datatype DataError = NetworkIsNotCorrect | NetMaskIsNotCorrect | SyntaxError

  /** The `network` struct (pkg/network/network.go:16-19). */
  datatype NetworkData = NetworkData(ip: seq<byte>, mask: seq<byte>)

  /** What `verifiedNetworkData` returns: address, mask and error. */
  datatype Verified = Verified(ip: seq<byte>, mask: seq<byte>, err: Option<DataError>)

  // Decimal text, as `strconv.Atoi` reads it

  predicate AllDigits(t: string)
  {
    forall i :: 0 <= i < |t| ==> '0' <= t[i] <= '9'
  }

  function Pow10(k: nat): (r: nat)
    ensures r >= 1
  {
    if k == 0 then 1 else 10 * Pow10(k - 1)
  }

  /** The value of a string of decimal digits, most significant first. */
  function DecimalValue(t: string): (r: nat)
    requires AllDigits(t)
    ensures r < Pow10(|t|)
  {
    if t == [] then 0
    else
      assert AllDigits(t[..|t| - 1]);
      DecimalValue(t[..|t| - 1]) * 10 + (t[|t| - 1] - '0') as int
  }

  /** `strconv.Atoi` on text shorter than 19 bytes, which is never out of
      range: an optional sign and at least one decimal digit, or a syntax
      error. */
  function Atoi(s: string): (r: Option<int>)
    ensures r.Some? <==> (|s| > 0 && AllDigits(s)) || (|s| > 1 && (s[0] == '+' || s[0] == '-') && AllDigits(s[1..]))
    ensures |s| > 0 && AllDigits(s) ==> r == Some(DecimalValue(s))
    ensures |s| > 1 && s[0] == '+' && AllDigits(s[1..]) ==> r == Some(DecimalValue(s[1..]))
    ensures |s| > 1 && s[0] == '-' && AllDigits(s[1..]) ==> r == Some(-(DecimalValue(s[1..]) as int))
    ensures r.Some? ==> |s| > 0 && -(Pow10(|s| - 1) as int) < r.value < Pow10(|s|)
  {
    if |s| > 0 && (s[0] == '+' || s[0] == '-') then
      if |s| > 1 && AllDigits(s[1..]) then
        Some(if s[0] == '-' then -(DecimalValue(s[1..]) as int) else DecimalValue(s[1..]))
      else None
    else if |s| > 0 && AllDigits(s) then Some(DecimalValue(s))
    else None
  }

  /** The number of bytes a character takes in UTF-8. */
  function CharBytes(c: char): (r: nat)
    ensures 1 <= r <= 4 && (r == 1 <==> c as int < 0x80)
  {
    if c as int < 0x80 then 1 else if c as int < 0x800 then 2 else if c as int < 0x1_0000 then 3 else 4
  }

  /** Go's `len` of a string: its length in UTF-8 bytes. */
  function ByteLength(t: string): (r: nat)
    ensures |t| <= r <= 4 * |t|
    ensures (forall i :: 0 <= i < |t| ==> t[i] as int < 0x80) ==> r == |t|
  {
    if t == [] then 0 else CharBytes(t[0]) + ByteLength(t[1..])
  }

  /** `verifiedNetworkData` (pkg/network/network.go:26-51), with `address`
      and `parsedMask` the results of `net.ParseIP(..).To4()` on the two
      texts. The branches go by the length of the mask text in bytes. The
      test `mask <= 0 && mask >= 32` of line 38 never holds, so a mask of
      one or two bytes fails only when it is no number and otherwise yields
      neither address nor mask; only the dotted form of seven to fifteen
      bytes yields a mask. */
  function VerifiedNetworkData(address: Option<seq<byte>>, maskText: string, parsedMask: Option<seq<byte>>): (r: Verified)
    requires address.Some? ==> |address.value| == 4
    requires parsedMask.Some? ==> |parsedMask.value| == 4
    ensures address.None? ==> r == Verified([], [], Some(NetworkIsNotCorrect))
    ensures r.err == Some(NetworkIsNotCorrect) <==> address.None?
    ensures r.err == Some(NetMaskIsNotCorrect) <==> address.Some? && 7 <= ByteLength(maskText) <= 15 && parsedMask.None?
    ensures r.err == Some(SyntaxError) <==> address.Some? && 1 <= ByteLength(maskText) <= 2 && Atoi(maskText).None?
    ensures r.mask != [] <==> address.Some? && 7 <= ByteLength(maskText) <= 15 && parsedMask.Some?
    ensures r.mask != [] ==> r.ip == address.value && r.mask == parsedMask.value && r.err == None
    ensures r.mask == [] ==> r.ip == []
    ensures address.Some? && !(7 <= ByteLength(maskText) <= 15) && !(1 <= ByteLength(maskText) <= 2 && Atoi(maskText).None?)
            ==> r == Verified([], [], None)
  {
    var len := ByteLength(maskText);
    if address.None? then Verified([], [], Some(NetworkIsNotCorrect))
    else if 1 <= len <= 2 then
      match Atoi(maskText)
      case None => Verified([], [], Some(SyntaxError))
      case Some(mask) =>
        if mask <= 0 && mask >= 32 then Verified([], [], Some(NetMaskIsNotCorrect))
        else Verified([], [], None)
    else if 7 <= len <= 15 then
      if parsedMask.None? then Verified([], [], Some(NetMaskIsNotCorrect))
      else Verified(address.value, parsedMask.value, None)
    else Verified([], [], None)
  }

  /** A prefix length in the one- or two-byte form, "24" say, is accepted
      and dropped: no error, no address and no mask. */
  lemma PrefixTextDropped(address: seq<byte>, maskText: string)
    requires |address| == 4 && 1 <= |maskText| <= 2 && AllDigits(maskText)
    ensures VerifiedNetworkData(Some(address), maskText, None) == Verified([], [], None)
    ensures NewNetwork(Some(address), maskText, None) == (NetworkData([], []), None)
  {
  }

  /** "1.2.3\U{E9}" is six characters but seven bytes long, so it takes the
      dotted branch, and a text `ParseIP` refuses is a wrong mask. */
  lemma LengthInBytes(address: seq<byte>)
    requires |address| == 4
    ensures ByteLength("1.2.3\U{E9}") == 7
    ensures VerifiedNetworkData(Some(address), "1.2.3\U{E9}", None) == Verified([], [], Some(NetMaskIsNotCorrect))
  {
    assert ByteLength("\U{E9}") == 2;
  }

  /** `NewNetwork` (pkg/network/network.go:53-67): an empty network and the
      error when the data does not verify, otherwise the verified address
      and mask, which are both empty unless the mask was given dotted. */
  function NewNetwork(address: Option<seq<byte>>, maskText: string, parsedMask: Option<seq<byte>>): (r: (NetworkData, Option<DataError>))
    requires address.Some? ==> |address.value| == 4
    requires parsedMask.Some? ==> |parsedMask.value| == 4
    ensures r.1 == VerifiedNetworkData(address, maskText, parsedMask).err
    ensures r.1.Some? ==> r.0 == NetworkData([], [])
    ensures address.None? ==> r == (NetworkData([], []), Some(NetworkIsNotCorrect))
    ensures r.0.mask != [] <==> address.Some? && 7 <= ByteLength(maskText) <= 15 && parsedMask.Some?
    ensures r.0.mask != [] ==> r == (NetworkData(address.value, parsedMask.value), None)
    ensures r.0.mask == [] ==> r.0.ip == []
    ensures address.Some? && !(7 <= ByteLength(maskText) <= 15) && !(1 <= ByteLength(maskText) <= 2 && Atoi(maskText).None?)
            ==> r == (NetworkData([], []), None)
  {
    var v := VerifiedNetworkData(address, maskText, parsedMask);
    if v.err.Some? then (NetworkData([], []), v.err)
    else (NetworkData(v.ip, v.mask), None)
  }

  // Big-endian integers (`big.Int.SetBytes` and `big.Int.Bytes`)

  /** The big-endian value of a byte slice (`big.Int.SetBytes`). */
  function BigEndian(b: seq<byte>): nat
  {
    if b == [] then 0 else BigEndian(b[..|b| - 1]) * 0x100 + b[|b| - 1] as int
  }

  /** `big.Int.Bytes`: the big-endian bytes of v without leading zeros. */
  function MinimalBytes(v: nat): (r: seq<byte>)
    ensures BigEndian(r) == v
    ensures |r| > 0 ==> r[0] != 0
  {
    if v == 0 then []
    else
      var r := MinimalBytes(v / 0x100) + [v % 0x100];
      assert r[..|r| - 1] == MinimalBytes(v / 0x100);
      r
  }

  /** m right-aligned in a zeroed buffer of w bytes. */
  function ZeroPadded(m: seq<byte>, w: nat): (r: seq<byte>)
    requires |m| <= w
    ensures |r| == w
    ensures forall j :: 0 <= j < w ==> r[j] == if j < w - |m| then 0 else m[j - (w - |m|)]
  {
    seq(w - |m|, _ => 0) + m
  }

  /** A big-endian value of n bytes is below 2^(8n). */
  lemma {:induction false} BigEndianBound(b: seq<byte>)
    ensures BigEndian(b) < Pow2(8 * |b|)
  {
    if b != [] {
      var n := |b|;
      BigEndianBound(b[..n - 1]);
      Pow2Add(8 * (n - 1), 8);
      assert 8 * (n - 1) + 8 == 8 * n;
      Pow2Of8();
      assert BigEndian(b) <= (Pow2(8 * (n - 1)) - 1) * 0x100 + 0xFF;
    }
  }

  /** A value below 2^(8w) has at most w bytes. */
  lemma {:induction false} MinimalFits(v: nat, w: nat)
    requires v < Pow2(8 * w)
    ensures |MinimalBytes(v)| <= w
  {
    if v != 0 {
      assert w != 0;
      Pow2Add(8 * (w - 1), 8);
      assert 8 * (w - 1) + 8 == 8 * w;
      Pow2Of8();
      assert v / 0x100 < Pow2(8 * (w - 1));
      MinimalFits(v / 0x100, w - 1);
    }
  }

  /** Leading zero bytes do not change a big-endian value. */
  lemma {:induction false} PaddingValue(m: seq<byte>, w: nat)
    requires |m| <= w
    ensures BigEndian(ZeroPadded(m, w)) == BigEndian(m)
    decreases |m|, w
  {
    var r := ZeroPadded(m, w);
    if m == [] {
      if w > 0 {
        assert r[..w - 1] == ZeroPadded([], w - 1);
        PaddingValue([], w - 1);
      }
    } else {
      assert r[..w - 1] == ZeroPadded(m[..|m| - 1], w - 1);
      PaddingValue(m[..|m| - 1], w - 1);
    }
  }

  /** Two byte slices of one length with one big-endian value are equal. */
  lemma {:induction false} BigEndianInjective(a: seq<byte>, b: seq<byte>)
    requires |a| == |b| && BigEndian(a) == BigEndian(b)
    ensures a == b
  {
    if a != [] {
      var n := |a|;
      DivModUnique(BigEndian(a), 0x100, BigEndian(a[..n - 1]), a[n - 1]);
      DivModUnique(BigEndian(b), 0x100, BigEndian(b[..n - 1]), b[n - 1]);
      BigEndianInjective(a[..n - 1], b[..n - 1]);
      assert a == a[..n - 1] + [a[n - 1]];
      assert b == b[..n - 1] + [b[n - 1]];
    }
  }

  /** `intToIP(ipToInt(ip))` gives `ip` back: padding the minimal bytes of
      the value of `b` to the length of `b` restores `b`. */
  lemma {:induction false} BytesRoundTrip(b: seq<byte>)
    ensures |MinimalBytes(BigEndian(b))| <= |b|
    ensures ZeroPadded(MinimalBytes(BigEndian(b)), |b|) == b
  {
    BigEndianBound(b);
    MinimalFits(BigEndian(b), |b|);
    var m := MinimalBytes(BigEndian(b));
    PaddingValue(m, |b|);
    BigEndianInjective(ZeroPadded(m, |b|), b);
  }

  /** The big-endian value of four octets is the packed address. */
  lemma BigEndianIsPack(b: seq<byte>)
    requires |b| == 4
    ensures BigEndian(b) == Pack(b)
  {
    var b3, b2, b1 := b[..3], b[..2], b[..1];
    assert b3[..2] == b2 && b2[..1] == b1 && b1[..0] == [];
    assert BigEndian(b1) == b[0] as int;
    assert BigEndian(b2) == b[0] as int * 0x100 + b[1] as int;
    assert BigEndian(b3) == (b[0] as int * 0x100 + b[1] as int) * 0x100 + b[2] as int;
  }

  // Conversions

  /** `ipToInt` (pkg/network/network.go:94-104): the value of the slice and
      its width in bits; any length but 4 and 16 panics. */
  function IpToInt(ip: seq<byte>): (r: Exec<(nat, nat)>)
    ensures r.Returns? <==> |ip| == 4 || |ip| == 16
    ensures r.Returns? ==> r.value.1 == 8 * |ip| && r.value.0 == BigEndian(ip) && r.value.0 < Pow2(r.value.1)
  {
    BigEndianBound(ip);
    if |ip| == 4 then Returns((BigEndian(ip), 32))
    else if |ip| == 16 then Returns((BigEndian(ip), 128))
    else Panics
  }

  /** `intToIP` (pkg/network/network.go:106-114): the bytes of the value are
      copied from the right into a zeroed buffer of bits/8 bytes; when they
      do not fit, the index of line 111 goes negative and the code panics. */
  method IntToIP(v: nat, bits: nat) returns (r: Exec<seq<byte>>)
    ensures |MinimalBytes(v)| <= bits / 8 ==> r == Returns(ZeroPadded(MinimalBytes(v), bits / 8))
    ensures |MinimalBytes(v)| > bits / 8 ==> r == Panics
  {
    var ipBytes := MinimalBytes(v);
    var ret := new byte[bits / 8](_ => 0);
    var i := 1;
    while i <= |ipBytes|
      invariant 1 <= i <= |ipBytes| + 1 && i - 1 <= ret.Length
      invariant forall j :: 0 <= j < ret.Length - (i - 1) ==> ret[j] == 0
      invariant forall j :: ret.Length - (i - 1) <= j < ret.Length ==> ret[j] == ipBytes[j - (ret.Length - |ipBytes|)]
      decreases |ipBytes| + 1 - i
    {
      if ret.Length - i < 0 {
        return Panics;
      }
      ret[ret.Length - i] := ipBytes[|ipBytes| - i];
      i := i + 1;
    }
    assert ret[..] == ZeroPadded(ipBytes, bits / 8);
    r := Returns(ret[..]);
  }

  // Mask size, address count and address range

  /** m holds p one bits followed by zero bits. */
  predicate MaskOfLength(m: seq<byte>, p: nat)
  {
    p <= 8 * |m| && BigEndian(m) + Pow2(8 * |m| - p) == Pow2(8 * |m|)
  }

  lemma MaskLengthUnique(m: seq<byte>, p: nat, q: nat)
    requires MaskOfLength(m, p) && MaskOfLength(m, q)
    ensures p == q
  {
    if p < q {
      Pow2Monotone(8 * |m| - q + 1, 8 * |m| - p);
    } else if q < p {
      Pow2Monotone(8 * |m| - p + 1, 8 * |m| - q);
    }
  }

  /** The first prefix length from p on that m has. */
  function OnesFrom(m: seq<byte>, p: nat): (r: Option<nat>)
    ensures r.Some? ==> p <= r.value && MaskOfLength(m, r.value)
    ensures r.None? ==> forall q :: p <= q ==> !MaskOfLength(m, q)
    decreases 8 * |m| + 1 - p
  {
    if p > 8 * |m| then None
    else if MaskOfLength(m, p) then Some(p)
    else OnesFrom(m, p + 1)
  }

  /** `net.IPMask.Size`: the number of leading ones and the width in bits,
      or (0, 0) when the mask is not ones followed by zeros. */
  function MaskSize(m: seq<byte>): (r: (nat, nat))
    ensures forall p: nat :: MaskOfLength(m, p) ==> r == (p, 8 * |m|)
    ensures (forall p: nat :: !MaskOfLength(m, p)) ==> r == (0, 0)
    ensures r.0 <= r.1
  {
    var ones := OnesFrom(m, 0);
    if ones.Some? then
      assert forall p: nat :: MaskOfLength(m, p) ==> p == ones.value by {
        forall p | MaskOfLength(m, p)
          ensures p == ones.value
        {
          MaskLengthUnique(m, p, ones.value);
        }
      }
      (ones.value, 8 * |m|)
    else (0, 0)
  }

  /** `AddressCount` (pkg/network/network.go:69-72): `1 << (bits - ones)` in
      a `uint64`, which is 0 once the shift reaches 64. A four-octet /p mask
      gives 2^(32-p); a mask of another form gives 1. */
  function AddressCount(network: NetworkData): (r: nat)
    ensures forall p: nat :: MaskOfLength(network.mask, p) ==>
      r == if 8 * |network.mask| - p < 64 then Pow2(8 * |network.mask| - p) else 0
    ensures forall p: nat :: |network.mask| == 4 && MaskOfLength(network.mask, p) ==> r == Pow2(32 - p)
    ensures (forall p: nat :: !MaskOfLength(network.mask, p)) ==> r == 1
  {
    var size := MaskSize(network.mask);
    var shift := size.1 - size.0;
    if shift < 64 then Pow2(shift) else 0
  }

  /** `AddressRange` (pkg/network/network.go:74-92). When the mask has as
      many ones as bits (a /32 mask, but also the empty mask and any mask
      that is not ones followed by zeros) the address comes back twice.
      Otherwise the last address is the address OR 2^(bits-ones) - 1.
      The code panics in `ipToInt` when the address is neither 4 nor 16
      bytes long, and when the mask is wider than the address the
      unsigned host length wraps round and the shift cannot be carried out;
      both are `Panics` here. */
  method AddressRange(network: NetworkData) returns (r: Exec<(seq<byte>, seq<byte>)>)
    ensures MaskSize(network.mask).0 == MaskSize(network.mask).1 ==> r == Returns((network.ip, network.ip))
    ensures var ones := MaskSize(network.mask).0;
      ones != MaskSize(network.mask).1 ==>
        r == if (|network.ip| != 4 && |network.ip| != 16) || ones > 8 * |network.ip| then Panics
             else Returns((network.ip, RangeEnd(network.ip, ones)))
  {
    var firstIP := network.ip;
    var size := MaskSize(network.mask);
    var prefixLen, bits := size.0, size.1;
    if prefixLen == bits {
      var lastIP := firstIP;
      return Returns((firstIP, lastIP));
    }
    var conv := IpToInt(firstIP);
    if conv.Panics? {
      return Panics;
    }
    var firstIPInt := conv.value.0;
    bits := conv.value.1;
    if bits < prefixLen {
      return Panics;
    }
    var hostLen := bits - prefixLen;
    var lastIPInt := 1;
    lastIPInt := lastIPInt * Pow2(hostLen);
    assert lastIPInt == Pow2(8 * |firstIP| - prefixLen);
    lastIPInt := lastIPInt - 1;
    lastIPInt := Or(lastIPInt, firstIPInt);
    assert bits / 8 == |firstIP|;
    RangeEndFits(firstIP, prefixLen);
    var lastIP := IntToIP(lastIPInt, bits);
    assert lastIP == Returns(RangeEnd(firstIP, prefixLen));
    r := Returns((firstIP, lastIP.value));
  }

  /** The last address of the range of a /p network holding ip: ip with its
      low host bits set, in as many bytes as ip. It lies in the block of
      2^(bits-p) addresses that starts at or below ip. */
  function RangeEnd(ip: seq<byte>, p: nat): (last: seq<byte>)
    requires (|ip| == 4 || |ip| == 16) && p <= 8 * |ip|
    ensures |last| == |ip|
    ensures BigEndian(ip) <= BigEndian(last) < BigEndian(ip) + Pow2(8 * |ip| - p)
    ensures BigEndian(last) == Or(Pow2(8 * |ip| - p) - 1, BigEndian(ip))
  {
    var bits := 8 * |ip|;
    var v := Or(Pow2(bits - p) - 1, BigEndian(ip));
    BigEndianBound(ip);
    LastOfBlock(BigEndian(ip), bits - p, bits);
    MinimalFits(v, |ip|);
    PaddingValue(MinimalBytes(v), |ip|);
    ZeroPadded(MinimalBytes(v), |ip|)
  }

  /** The value `RangeEnd` pads fits the width of the address. */
  lemma RangeEndFits(ip: seq<byte>, p: nat)
    requires (|ip| == 4 || |ip| == 16) && p <= 8 * |ip|
    ensures var v := Or(Pow2(8 * |ip| - p) - 1, BigEndian(ip));
      |MinimalBytes(v)| <= |ip| && RangeEnd(ip, p) == ZeroPadded(MinimalBytes(v), |ip|)
  {
    var v := Or(Pow2(8 * |ip| - p) - 1, BigEndian(ip));
    BigEndianBound(ip);
    LastOfBlock(BigEndian(ip), 8 * |ip| - p, 8 * |ip|);
    MinimalFits(v, |ip|);
    PaddingValue(MinimalBytes(v), |ip|);
    BigEndianInjective(RangeEnd(ip, p), ZeroPadded(MinimalBytes(v), |ip|));
  }

  /** For a four-octet address and a four-octet /p mask, the last address of
      `AddressRange` is the broadcast address the allocator computes,
      address OR NOT mask. */
  lemma RangeEndIsBroadcast(ip: seq<byte>, mask: seq<byte>, p: nat)
    requires |ip| == 4 && |mask| == 4 && MaskOfLength(mask, p)
    ensures Or(Pow2(32 - p) - 1, BigEndian(ip)) == Or(Pack(ip), Not32(Pack(mask)))
  {
    BigEndianIsPack(ip);
    BigEndianIsPack(mask);
    Pow2Of32();
    OrCommutes(Pow2(32 - p) - 1, BigEndian(ip));
  }
}

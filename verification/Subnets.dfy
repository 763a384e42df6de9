/** IPv4 subnets, CIDR texts, the VIP range start of pkg/cni/ipam.go and the subnet
    generator of pkg/cni/config.go.
 */
module Subnets {
  import opened Addresses
  import opened Bits
  import opened ByteStrings
  import opened Options

  /** A CIDR text such as "10.1.0.0/24": the IPv4 address as a number and the prefix length
      as written. Two texts are equal exactly when both parts are. */
  datatype Cidr = Cidr(addr: nat, ones: int)

  predicate WellFormed(c: Cidr) {
    c.addr < V4_SIZE && 0 <= c.ones <= 32
  }

  /** A net.IPNet for IPv4: the masked network address, as a number, and its prefix length. */
  datatype RawSubnet = Subnet(addr: nat, ones: nat) {
    function HostBits(): nat
      requires ones <= 32
    {
      32 - ones
    }

    function Size(): nat
      requires ones <= 32
    {
      Pow2(HostBits())
    }

    /** The number of the first address. */
    function Base(): nat {
      V4_MAPPED + addr
    }

    /** The number of the last address. */
    function Last(): nat
      requires ones <= 32
    {
      Base() + Size() - 1
    }

    /** IPNet.String */
    function Text(): Cidr {
      Cidr(addr, ones)
    }
  }

  type Subnet = n: RawSubnet | n.addr < V4_SIZE && n.ones <= 32 && Aligned(n.addr, 32 - n.ones)
    witness Subnet(0, 32)

  /** ParseCIDR: the network with its host bits cleared, and the address as written, which
      net.ParseCIDR returns in the 16-byte form. */
  function ParseCIDR(c: Cidr): (r: Option<(Subnet, IP)>)
    ensures r.Some? <==> WellFormed(c)
    ensures r.Some? && Aligned(c.addr, 32 - c.ones) ==> r.value.0.Text() == c
  {
    if WellFormed(c) then
      ClearLowAligned(c.addr, 32 - c.ones);
      Some((Subnet(ClearLow(c.addr, 32 - c.ones), c.ones), Bytes16(V4_MAPPED + c.addr)))
    else
      None
  }

  /** IPNet.Contains for an IPv4 network. */
  predicate Contains(n: Subnet, ip: IP) {
    n.Base() <= ip.Num() <= n.Last()
  }

  /** Lying in the range of the network is having an IPv4 form that agrees with the network
      address under its mask. */
  lemma ContainsIsMaskedEquality(n: Subnet, ip: IP)
    ensures Contains(n, ip) <==>
            ip.IsV4() && ClearLow(ip.Num() - V4_MAPPED, n.HostBits()) == n.addr
  {
    InNetwork(n);
    if ip.IsV4() {
      ClearLowAligned(n.addr, n.HostBits());
      ClearLowAligned(ip.Num() - V4_MAPPED, n.HostBits());
      SameShiftIsBlock(n.addr, ip.Num() - V4_MAPPED, n.HostBits());
    }
  }

  /** A network lies inside the IPv4 address space. */
  lemma InNetwork(n: Subnet)
    ensures n.Last() < V4_MAPPED + V4_SIZE
  {
    Powers();
    ScaleZero(32);
    RoomForBlock(0, n.addr, 32, n.HostBits());
  }

  // ----- Byte-wise addition of the VIP offset -----

  /** One byte plus the low byte of the offset, in byte arithmetic. */
  function AddByte(b: byte, offset: int): byte {
    (b as int + offset % 256) % 256
  }

  /** Adds an offset byte by byte from the right, dropping every carry. */
  function AddOffset(b: seq<byte>, offset: int): (r: seq<byte>)
    ensures |r| == |b|
  {
    if |b| == 0 || offset <= 0 then b
    else
      var n := |b| - 1;
      AddOffset(b[..n], offset / 256) + [AddByte(b[n], offset)]
  }

  /** The sum still to come when the bytes right of position i are done. */
  function SumFrom(s: seq<byte>, i: int, offset: int): seq<byte>
    requires -1 <= i < |s|
  {
    AddOffset(s[..i + 1], offset) + s[i + 1..]
  }

  lemma SumStep(s: seq<byte>, i: nat, offset: int)
    requires i < |s| && offset > 0
    ensures SumFrom(s[i := AddByte(s[i], offset)], i - 1, offset / 256) == SumFrom(s, i, offset)
  {
    var s' := s[i := AddByte(s[i], offset)];
    assert s[..i + 1][..i] == s[..i] == s'[..i];
    assert s'[i..] == [AddByte(s[i], offset)] + s[i + 1..];
  }

  lemma SumStart(s: seq<byte>, offset: int)
    ensures SumFrom(s, |s| - 1, offset) == AddOffset(s, offset)
  {
    assert s[..|s| - 1 + 1] == s;
  }

  lemma SumDone(s: seq<byte>, i: int, offset: int)
    requires -1 <= i < |s| && (i < 0 || offset <= 0)
    ensures SumFrom(s, i, offset) == s
  {
  }

  /** The start of the VIP scan: 17 below the end of the subnet, or its base when the subnet
      has at most 16 addresses. */
  function VIPRangeStart(n: Subnet): IP {
    var offset := n.Size() - 17;
    InNetwork(n);
    Bytes4(n.addr + if offset > 0 then offset else 0)
  }

  /** getVIPRangeStart */
  method GetVIPRangeStart(n: Subnet) returns (r: IP)
    ensures r == VIPRangeStart(n)
  {
    var baseIP := Octets(Bytes4(n.addr));
    var vipOffset := n.Size() - 17;
    var vipIP := AddBytes(baseIP, vipOffset);
    if vipOffset > 0 {
      CarryFreeAddition(baseIP, vipOffset, n.HostBits());
    }
    r := FromOctets(vipIP);
  }

  /** Copying base and adding from the right has come to position i. */
  predicate Adding(base: seq<byte>, total: int, s: seq<byte>, i: int, offset: int) {
    |s| == |base| && -1 <= i < |s| && SumFrom(s, i, offset) == AddOffset(base, total)
  }

  lemma AddingStarts(base: seq<byte>, total: int)
    ensures Adding(base, total, base, |base| - 1, total)
  {
    SumStart(base, total);
  }

  lemma AddingStep(base: seq<byte>, total: int, s: seq<byte>, i: int, offset: int)
    requires Adding(base, total, s, i, offset) && i >= 0 && offset > 0
    ensures Adding(base, total, s[i := AddByte(s[i], offset)], i - 1, offset / 256)
  {
    SumStep(s, i, offset);
  }

  lemma AddingEnds(base: seq<byte>, total: int, s: seq<byte>, i: int, offset: int)
    requires Adding(base, total, s, i, offset) && (i < 0 || offset <= 0)
    ensures s == AddOffset(base, total)
  {
    SumDone(s, i, offset);
  }

  method AddBytes(base: seq<byte>, total: int) returns (r: seq<byte>)
    ensures r == AddOffset(base, total)
  {
    var offset := total;
    var sum := new byte[|base|](i requires 0 <= i < |base| => base[i]);
    var i := |base| - 1;
    assert sum[..] == base;
    AddingStarts(base, total);
    while i >= 0 && offset > 0
      invariant -1 <= i < sum.Length
      invariant Adding(base, total, sum[..], i, offset)
    {
      AddingStep(base, total, sum[..], i, offset);
      sum[i] := AddByte(sum[i], offset);
      offset := offset / 256;
      i := i - 1;
    }
    AddingEnds(base, total, sum[..], i, offset);
    r := sum[..];
  }

  /** Dropping carries is harmless when the address is aligned to a power of two above the
      offset: no byte overflows. */
  lemma {:induction false} CarryFreeAddition(b: seq<byte>, offset: nat, bits: nat)
    requires bits <= 8 * |b| && offset < Pow2(bits) && Aligned(Value(b), bits)
    ensures Value(AddOffset(b, offset)) == Value(b) + offset
  {
    if |b| > 0 && offset > 0 {
      var n := |b| - 1;
      assert b[n] as int + offset % 256 < 256
          && Value(AddOffset(b[..n], offset / 256)) == Value(b[..n]) + offset / 256 by {
        NoByteOverflow(Value(b[..n]), b[n], offset, bits);
        if bits >= 8 {
          CarryFreeAddition(b[..n], offset / 256, bits - 8);
        }
      }
      ValueOfSum(b, offset);
      ByteSum(Value(b[..n]), b[n], offset);
    }
  }

  lemma ByteSum(prefix: nat, last: byte, offset: nat)
    requires last as int + offset % 256 < 256
    ensures (prefix + offset / 256) * 256 + AddByte(last, offset) == prefix * 256 + last + offset
  {
  }

  lemma NoByteOverflow(prefix: nat, low: byte, offset: nat, bits: nat)
    requires offset < Pow2(bits) && Aligned(prefix * 256 + low, bits)
    ensures low as int + offset % 256 < 256
    ensures bits >= 8 ==> offset / 256 < Pow2(bits - 8) && Aligned(prefix, bits - 8)
    ensures bits < 8 ==> offset / 256 == 0
  {
    Powers();
    ScaleByte(prefix);
    if bits >= 8 {
      Pow2Add(8, bits - 8);
      ScaleByte(Pow2(bits - 8));
      AlignedPart(prefix, low, 8, bits);
    } else {
      RoomForBlock(prefix, low, 8, bits);
    }
  }

  lemma ValueOfSum(b: seq<byte>, offset: nat)
    requires |b| > 0 && offset > 0
    ensures Value(AddOffset(b, offset)) ==
            Value(AddOffset(b[..|b| - 1], offset / 256)) * 256 + AddByte(b[|b| - 1], offset)
  {
  }

  // ----- Subnet generation -----

  /** Go's integer division by 8, which truncates toward zero. */
  function TruncDiv8(x: int): int {
    if x >= 0 then x / 8 else -(-x / 8)
  }

  function OffsetByte(pool: Cidr, size: int): int {
    TruncDiv8(32 - pool.ones - size)
  }

  /** The address bytes for a network index: the index overwrites one or two pool bytes. */
  function GeneratedBytes(pool: Cidr, size: int, index: nat): (r: seq<byte>)
    requires WellFormed(pool) && 0 <= OffsetByte(pool, size) <= 3
    ensures |r| == 4
  {
    Limits();
    var b := Bytes(4, pool.addr);
    var at := OffsetByte(pool, size);
    var low := b[at := index % 256];
    if at > 0 then low[at - 1 := (index / 256) % 256] else low
  }

  function GeneratedSubnet(pool: Cidr, size: int, index: nat): Option<Cidr> {
    if !WellFormed(pool) || !(0 <= OffsetByte(pool, size) <= 3) then None
    else Some(Cidr(Value(GeneratedBytes(pool, size, index)), size))
  }

  /** GenerateSubnet */
  method GenerateSubnet(pool: Cidr, size: int, index: nat) returns (r: Option<Cidr>)
    ensures r == GeneratedSubnet(pool, size, index)
  {
    if !WellFormed(pool) {
      return None;
    }
    var offsetByte := OffsetByte(pool, size);
    if offsetByte < 0 || offsetByte > 3 {
      return None;
    }
    Limits();
    var base := Bytes(4, pool.addr);
    var subnetIP := new byte[4](i requires 0 <= i < 4 => base[i]);
    subnetIP[offsetByte] := index % 256;
    if offsetByte > 0 {
      subnetIP[offsetByte - 1] := (index / 256) % 256;
    }
    assert subnetIP[..] == GeneratedBytes(pool, size, index);
    r := Some(Cidr(Value(subnetIP[..]), size));
  }

  /** How the bytes come out: with d the number of bits that pool prefix and new prefix leave of
      32, byte d / 8 becomes the low byte of the index and the one before it, if there is one,
      the next byte; from -7 to -1 that is byte 0. All other bytes are the pool's, and the new
      prefix is the one asked for. */
  lemma GeneratedBytesAre(pool: Cidr, size: int, index: nat, k: nat)
    requires WellFormed(pool) && k <= 3
    requires 8 * k <= 32 - pool.ones - size < 8 * (k + 1) || (k == 0 && -8 < 32 - pool.ones - size < 0)
    ensures var g := GeneratedSubnet(pool, size, index);
            && g.Some? && g.value.ones == size && g.value.addr < V4_SIZE
            && var b, was := Octets(Bytes4(g.value.addr)), Octets(Bytes4(pool.addr));
            && b[k] == index % 256 && (k > 0 ==> b[k - 1] == index / 256 % 256)
            && forall j | 0 <= j < 4 && j != k && !(k > 0 && j == k - 1) :: b[j] == was[j]
  {
    Limits();
    assert OffsetByte(pool, size) == k;
    var b := GeneratedBytes(pool, size, index);
    ValueInjective(b, Octets(Bytes4(Value(b))));
    ValueInjective(Bytes(4, pool.addr), Octets(Bytes4(pool.addr)));
  }

  /** It fails exactly on a bad pool, or when those bits are 32 or more, or -8 or fewer. */
  lemma GenerateFailsIff(pool: Cidr, size: int, index: nat)
    ensures GeneratedSubnet(pool, size, index).None? <==>
            || !(pool.addr < V4_SIZE && 0 <= pool.ones <= 32)
            || 32 - pool.ones - size >= 32 || 32 - pool.ones - size <= -8
  {
  }

  /** The indices repeat after 256 when those bits are fewer than 8, and after 65536 otherwise. */
  lemma IndexSpaceIs(pool: Cidr, size: int)
    requires 32 - pool.ones - size > -8
    ensures IndexSpace(pool, size) == if 32 - pool.ones - size < 8 then 256 else 65536
  {
  }

  /** The addresses of the network that a CIDR text denotes. */
  predicate Covers(c: Cidr, x: nat) {
    WellFormed(c) && x < V4_SIZE && Shift(x, 32 - c.ones) == Shift(c.addr, 32 - c.ones)
  }

  ghost predicate Disjoint(c: Cidr, d: Cidr) {
    forall x: nat :: !(Covers(c, x) && Covers(d, x))
  }

  /** How many successive indices the generator tells apart. */
  function IndexSpace(pool: Cidr, size: int): nat {
    if OffsetByte(pool, size) == 0 then 256 else 65536
  }

  /** The value of the first k bytes of an address, as a shift. */
  lemma {:induction false} PrefixValue(b: seq<byte>, k: nat)
    requires k <= |b|
    ensures Value(b[..k]) == Shift(Value(b), 8 * (|b| - k))
    decreases |b| - k
  {
    if k < |b| {
      PrefixValue(b, k + 1);
      assert b[..k + 1][..k] == b[..k];
      Powers();
      ScaleByte(Value(b[..k]));
      ShiftPart(Value(b[..k]), b[k], 8);
      ShiftShift(Value(b), 8 * (|b| - k - 1), 8);
    } else {
      assert b[..k] == b;
    }
  }

  /** A network whose prefix spans the first k bytes fixes those bytes of its addresses. */
  lemma CoversFixesPrefix(b: seq<byte>, ones: nat, x: nat, k: nat)
    requires |b| == 4 && k <= 4 && 8 * k <= ones <= 32
    requires Covers(Cidr(Value(b), ones), x)
    ensures Value(b[..k]) == Shift(x, 32 - 8 * k)
  {
    PrefixValue(b, k);
    ShiftShift(x, 32 - ones, ones - 8 * k);
    ShiftShift(Value(b), 32 - ones, ones - 8 * k);
  }

  /** Quotient and remainder by 256 are determined by what they add up to. */
  lemma QuotRem(x: nat, quot: nat, rem: nat)
    requires x == 256 * quot + rem && rem < 256
    ensures x / 256 == quot && x % 256 == rem
  {
  }

  lemma TwoLowBytes(i: nat)
    ensures i % 65536 == ((i / 256) % 256) * 256 + i % 256
  {
    var quot, rem := i / 65536, i % 65536;
    var mid, low := rem / 256, rem % 256;
    assert i == 65536 * quot + rem && rem == 256 * mid + low;
    QuotRem(i, 256 * quot + mid, low);
    QuotRem(256 * quot + mid, quot, mid);
  }

  /** The two low bytes are those of the residue. */
  lemma BytesOfResidue(i: nat)
    ensures i % 256 == i % 65536 % 256 && (i / 256) % 256 == i % 65536 / 256
  {
    TwoLowBytes(i);
    QuotRem(i % 65536, (i / 256) % 256, i % 256);
  }

  lemma DistinctIndicesDisjoint(pool: Cidr, size: int, i: nat, j: nat)
    requires WellFormed(pool) && 0 <= OffsetByte(pool, size) <= 3 && size <= 32
    requires size >= 8 * (OffsetByte(pool, size) + 1)
    requires i % IndexSpace(pool, size) != j % IndexSpace(pool, size)
    ensures Disjoint(GeneratedSubnet(pool, size, i).value, GeneratedSubnet(pool, size, j).value)
  {
    var k := OffsetByte(pool, size) + 1;
    var a, b := GeneratedBytes(pool, size, i), GeneratedBytes(pool, size, j);
    TwoLowBytes(i);
    TwoLowBytes(j);
    assert a[k - 1] != b[k - 1] || (k > 1 && a[k - 2] != b[k - 2]);
    PrefixesDiffer(a, b, k);
    forall x: nat | Covers(Cidr(Value(a), size), x) && Covers(Cidr(Value(b), size), x)
      ensures false
    {
      CoversFixesPrefix(a, size, x, k);
      CoversFixesPrefix(b, size, x, k);
    }
  }

  lemma PrefixesDiffer(a: seq<byte>, b: seq<byte>, k: nat)
    requires |a| == |b| == 4 && 1 <= k <= 4
    requires a[k - 1] != b[k - 1] || (k > 1 && a[k - 2] != b[k - 2])
    ensures Value(a[..k]) != Value(b[..k])
  {
    assert a[k - 1] == a[..k][k - 1] && b[k - 1] == b[..k][k - 1];
    assert k > 1 ==> a[k - 2] == a[..k][k - 2] && b[k - 2] == b[..k][k - 2];
    if Value(a[..k]) == Value(b[..k]) {
      ValueInjective(a[..k], b[..k]);
    }
  }

  lemma EvenStep(i: nat)
    requires i % 2 == 0
    ensures (i % 256) % 2 == 0 && (i + 1) % 256 == i % 256 + 1 && (i + 1) / 256 == i / 256
  {
    var half := i / 2;
    var quot, rem := half / 128, half % 128;
    assert i == 2 * half && half == 128 * quot + rem;
    QuotRem(i, quot, 2 * rem);
    QuotRem(i + 1, quot, 2 * rem + 1);
  }

  lemma HalvesAgree(v: nat, even: nat)
    requires even % 2 == 0
    ensures (v * 256 + even) / 2 == (v * 256 + even + 1) / 2
  {
  }

  /** When the prefix stops short of the overwritten byte, an even index and its successor
      generate overlapping networks. */
  lemma ShortPrefixOverlaps(pool: Cidr, size: int, i: nat)
    requires WellFormed(pool) && 0 <= OffsetByte(pool, size) <= 3 && 0 <= size
    requires size < 8 * (OffsetByte(pool, size) + 1)
    requires i % 2 == 0
    ensures !Disjoint(GeneratedSubnet(pool, size, i).value, GeneratedSubnet(pool, size, i + 1).value)
  {
    var k := OffsetByte(pool, size) + 1;
    var a, b := GeneratedBytes(pool, size, i), GeneratedBytes(pool, size, i + 1);
    EvenStep(i);
    assert a[..k][..k - 1] == b[..k][..k - 1];
    HalvesAgree(Value(a[..k][..k - 1]), a[k - 1]);
    PrefixValue(a, k);
    PrefixValue(b, k);
    assert Shift(Value(a[..k]), 1) == Shift(Value(b[..k]), 1);
    CoarserShift(Value(a), Value(b), 32 - 8 * k, 32 - size);
    assert Covers(Cidr(Value(a), size), Value(a)) && Covers(Cidr(Value(b), size), Value(a));
  }

  lemma CoarserShift(x: nat, y: nat, fine: nat, coarse: nat)
    requires fine < coarse && Shift(Shift(x, fine), 1) == Shift(Shift(y, fine), 1)
    ensures Shift(x, coarse) == Shift(y, coarse)
  {
  }

  /** Generated networks with distinct indices are pairwise disjoint, over the whole index
      space, exactly when the prefix covers the overwritten byte. */
  lemma GeneratedDisjointIff(pool: Cidr, size: int)
    requires WellFormed(pool) && 0 <= OffsetByte(pool, size) <= 3 && 0 <= size <= 32
    ensures size >= 8 * (OffsetByte(pool, size) + 1) <==>
            forall i: nat, j: nat | i % IndexSpace(pool, size) != j % IndexSpace(pool, size) ::
              Disjoint(GeneratedSubnet(pool, size, i).value, GeneratedSubnet(pool, size, j).value)
  {
    if size >= 8 * (OffsetByte(pool, size) + 1) {
      forall i: nat, j: nat | i % IndexSpace(pool, size) != j % IndexSpace(pool, size)
        ensures Disjoint(GeneratedSubnet(pool, size, i).value, GeneratedSubnet(pool, size, j).value)
      {
        DistinctIndicesDisjoint(pool, size, i, j);
      }
    } else {
      ShortPrefixOverlaps(pool, size, 0);
      assert 0 % IndexSpace(pool, size) != 1 % IndexSpace(pool, size);
    }
  }

  /** Alignment within the last bytes does not depend on the bytes before them. */
  lemma {:induction false} AlignedSuffix(a: seq<byte>, b: seq<byte>, k: nat, bits: nat)
    requires |a| == |b| && k <= |a| && bits <= 8 * (|a| - k)
    requires forall i | k <= i < |a| :: a[i] == b[i]
    ensures Aligned(Value(a), bits) <==> Aligned(Value(b), bits)
  {
    if bits > 0 {
      var n := |a| - 1;
      if bits > 8 {
        AlignedSuffix(a[..n], b[..n], k, bits - 8);
      }
      AlignedLastByte(Value(a[..n]), Value(b[..n]), a[n], bits);
    }
  }

  lemma AlignedLastByte(v: nat, w: nat, low: byte, bits: nat)
    requires bits > 8 ==> (Aligned(v, bits - 8) <==> Aligned(w, bits - 8))
    ensures Aligned(v * 256 + low, bits) <==> Aligned(w * 256 + low, bits)
  {
    ScaleByte(v);
    ScaleByte(w);
    if bits <= 8 {
      Powers();
      AlignedWithinPart(v, w, low, 8, bits);
    } else {
      AlignedBeforeByte(v, low, bits);
      AlignedBeforeByte(w, low, bits);
    }
  }

  lemma AlignedBeforeByte(v: nat, low: byte, bits: nat)
    requires bits > 8
    ensures Aligned(v * 256 + low, bits) <==> low == 0 && Aligned(v, bits - 8)
  {
    Powers();
    ScaleByte(v);
    if Aligned(v * 256 + low, bits) {
      AlignedPart(v, low, 8, bits);
    }
    if low == 0 && Aligned(v, bits - 8) {
      AlignedBeyondPart(v, 8, bits);
    }
  }

  /** A generated address has no host bits exactly when the pool address has none. */
  lemma GeneratedAligned(pool: Cidr, size: int, index: nat)
    requires WellFormed(pool) && 0 <= OffsetByte(pool, size) <= 3 && size <= 32
    requires size >= 8 * (OffsetByte(pool, size) + 1)
    ensures Aligned(Value(GeneratedBytes(pool, size, index)), 32 - size) <==> Aligned(pool.addr, 32 - size)
  {
    Limits();
    AlignedSuffix(Bytes(4, pool.addr), GeneratedBytes(pool, size, index), OffsetByte(pool, size) + 1, 32 - size);
  }

  /** The network of a CIDR text prints that text exactly when the text has no host bits. */
  lemma ParsedTextIff(c: Cidr)
    requires WellFormed(c)
    ensures ParseCIDR(c).value.0.Text() == c <==> Aligned(c.addr, 32 - c.ones)
  {
  }

  /** Two indices generate the same network exactly when they agree modulo the index space. */
  lemma SameSubnetIff(pool: Cidr, size: int, i: nat, j: nat)
    requires WellFormed(pool) && 0 <= OffsetByte(pool, size) <= 3 && 0 <= size <= 32
    requires size >= 8 * (OffsetByte(pool, size) + 1)
    ensures GeneratedSubnet(pool, size, i) == GeneratedSubnet(pool, size, j) <==>
            i % IndexSpace(pool, size) == j % IndexSpace(pool, size)
  {
    if i % IndexSpace(pool, size) == j % IndexSpace(pool, size) {
      BytesOfResidue(i);
      BytesOfResidue(j);
    } else {
      DistinctIndicesDisjoint(pool, size, i, j);
      var c := GeneratedSubnet(pool, size, i).value;
      Limits();
      assert Covers(c, c.addr);
    }
  }

  // ----- Whether the generated networks lie in the pool -----

  ghost predicate Within(c: Cidr, d: Cidr) {
    forall x: nat | Covers(c, x) :: Covers(d, x)
  }

  /** The first byte the generator overwrites. */
  function FirstByte(pool: Cidr, size: int): int {
    if OffsetByte(pool, size) == 0 then 0 else OffsetByte(pool, size) - 1
  }

  /** Every generated network lies in the pool exactly when its prefix is no shorter than that
      of the pool and the pool prefix ends before the overwritten bytes. */
  lemma GeneratedInPoolIff(pool: Cidr, size: int)
    requires WellFormed(pool) && 0 <= OffsetByte(pool, size) <= 3 && 0 <= size <= 32
    ensures pool.ones <= size && pool.ones <= 8 * FirstByte(pool, size) <==>
            forall i: nat :: Within(GeneratedSubnet(pool, size, i).value, pool)
  {
    if pool.ones > size {
      WiderNotWithin(GeneratedSubnet(pool, size, 0).value, pool);
    } else if pool.ones > 8 * FirstByte(pool, size) {
      SomeIndexLeaves(pool, size);
    } else {
      forall i: nat
        ensures Within(GeneratedSubnet(pool, size, i).value, pool)
      {
        KeepsPoolPrefix(pool, size, i);
        LongerWithin(GeneratedSubnet(pool, size, i).value, pool);
      }
    }
  }

  lemma LongerWithin(c: Cidr, d: Cidr)
    requires WellFormed(c) && WellFormed(d) && d.ones <= c.ones
    requires Shift(c.addr, 32 - d.ones) == Shift(d.addr, 32 - d.ones)
    ensures Within(c, d)
  {
    forall x: nat | Covers(c, x)
      ensures Covers(d, x)
    {
      ShiftShift(x, 32 - c.ones, c.ones - d.ones);
      ShiftShift(c.addr, 32 - c.ones, c.ones - d.ones);
    }
  }

  lemma KeepsPoolPrefix(pool: Cidr, size: int, i: nat)
    requires WellFormed(pool) && 0 <= OffsetByte(pool, size) <= 3
    requires pool.ones <= 8 * FirstByte(pool, size)
    ensures Shift(Value(GeneratedBytes(pool, size, i)), 32 - pool.ones) == Shift(pool.addr, 32 - pool.ones)
  {
    Limits();
    var a, b := GeneratedBytes(pool, size, i), Bytes(4, pool.addr);
    assert a[..FirstByte(pool, size)] == b[..FirstByte(pool, size)];
    SamePrefix(a, b, FirstByte(pool, size), pool.ones);
  }

  lemma SamePrefix(a: seq<byte>, b: seq<byte>, f: nat, ones: nat)
    requires |a| == |b| == 4 && f <= 4 && a[..f] == b[..f] && ones <= 8 * f
    ensures Shift(Value(a), 32 - ones) == Shift(Value(b), 32 - ones)
  {
    PrefixValue(a, f);
    PrefixValue(b, f);
    ShiftShift(Value(a), 32 - 8 * f, 8 * f - ones);
    ShiftShift(Value(b), 32 - 8 * f, 8 * f - ones);
  }

  /** A network with a shorter prefix does not fit: two of its addresses, half a network apart,
      differ in a bit that the longer prefix fixes. */
  lemma WiderNotWithin(c: Cidr, d: Cidr)
    requires WellFormed(c) && WellFormed(d) && c.ones < d.ones
    ensures !Within(c, d)
  {
    var k := 31 - c.ones;
    var low := ClearLow(c.addr, k + 1);
    HalfNetwork(c.addr, k);
    ShiftShift(low, 32 - d.ones, k - (32 - d.ones));
    ShiftShift(low + Pow2(k), 32 - d.ones, k - (32 - d.ones));
    assert Covers(c, low) && Covers(c, low + Pow2(k));
  }

  lemma HalfNetwork(v: nat, k: nat)
    requires v < V4_SIZE && k < 32
    ensures var low := ClearLow(v, k + 1);
            && low + Pow2(k) < V4_SIZE
            && Shift(low, k + 1) == Shift(v, k + 1) == Shift(low + Pow2(k), k + 1)
            && Shift(low, k) != Shift(low + Pow2(k), k)
  {
    var low := ClearLow(v, k + 1);
    ClearLowAligned(v, k + 1);
    Powers();
    ScaleZero(32);
    RoomForBlock(0, low, 32, k + 1);
    SameShiftIsBlock(low, v, k + 1);
    SameShiftIsBlock(low, low + Pow2(k), k + 1);
    AlignedLess(low, k);
    SameShiftIsBlock(low, low + Pow2(k), k);
  }

  /** When the pool prefix reaches into the overwritten byte, some index flips a prefix bit. */
  lemma SomeIndexLeaves(pool: Cidr, size: int)
    requires WellFormed(pool) && 0 <= OffsetByte(pool, size) <= 3 && 0 <= size <= 32
    requires pool.ones > 8 * FirstByte(pool, size)
    ensures exists i: nat :: !Within(GeneratedSubnet(pool, size, i).value, pool)
  {
    var i := FlippingIndex(pool, size);
    Limits();
    NotWithin(GeneratedSubnet(pool, size, i).value, pool);
  }

  lemma NotWithin(c: Cidr, d: Cidr)
    requires WellFormed(c) && WellFormed(d) && Shift(c.addr, 32 - d.ones) != Shift(d.addr, 32 - d.ones)
    ensures !Within(c, d)
  {
    assert Covers(c, c.addr);
  }

  function Flip(b: byte): byte {
    if b < 128 then b + 128 else b - 128
  }

  lemma FlippingIndex(pool: Cidr, size: int) returns (i: nat)
    requires WellFormed(pool) && 0 <= OffsetByte(pool, size) <= 3
    requires pool.ones > 8 * FirstByte(pool, size)
    ensures Shift(Value(GeneratedBytes(pool, size, i)), 32 - pool.ones) != Shift(pool.addr, 32 - pool.ones)
  {
    Limits();
    var f, b := FirstByte(pool, size), Bytes(4, pool.addr);
    i := IndexFor(pool, size, Flip(b[f]));
    TopBitShows(GeneratedBytes(pool, size, i), b, f, pool.ones);
  }

  /** An index that puts a given value into the first overwritten byte. */
  lemma IndexFor(pool: Cidr, size: int, x: byte) returns (i: nat)
    requires WellFormed(pool) && 0 <= OffsetByte(pool, size) <= 3
    ensures pool.addr < Pow256(4)
    ensures var (f, a) := (FirstByte(pool, size), GeneratedBytes(pool, size, i));
            a[f] == x && a[..f] == Bytes(4, pool.addr)[..f]
  {
    Limits();
    i := if OffsetByte(pool, size) == 0 then x else 256 * x;
    QuotRem(256 * x, x, 0);
  }

  lemma TopBitShows(a: seq<byte>, b: seq<byte>, f: nat, ones: nat)
    requires |a| == |b| == 4 && f < 4 && a[..f] == b[..f] && (a[f] < 128 <==> b[f] >= 128)
    requires 8 * f < ones <= 32
    ensures Shift(Value(a), 32 - ones) != Shift(Value(b), 32 - ones)
  {
    UpToTopBit(a, f);
    UpToTopBit(b, f);
    ShiftShift(Value(a), 32 - ones, ones - (8 * f + 1));
    ShiftShift(Value(b), 32 - ones, ones - (8 * f + 1));
  }

  lemma UpToTopBit(a: seq<byte>, f: nat)
    requires |a| == 4 && f < 4
    ensures Shift(Value(a), 31 - 8 * f) == 2 * Value(a[..f]) + (if a[f] < 128 then 0 else 1)
  {
    PrefixValue(a, f + 1);
    ShiftShift(Value(a), 32 - 8 * (f + 1), 7);
    assert a[..f + 1][..f] == a[..f];
    TopBit(Value(a[..f]), a[f]);
  }

  lemma TopBit(v: nat, low: byte)
    ensures Shift(v * 256 + low, 7) == 2 * v + (if low < 128 then 0 else 1)
  {
    var top := if low < 128 then 0 else 1;
    assert Scale(2 * v + top, 1) == 4 * v + 2 * top;
    assert Scale(2 * v + top, 3) == 16 * v + 8 * top;
    assert Scale(2 * v + top, 5) == 64 * v + 32 * top;
    assert Pow2(3) == 8 && Pow2(5) == 32;
    ShiftPart(2 * v + top, low - 128 * top, 7);
  }

  /** The default pool 10.0.0.0/8 with subnets of prefix length 24 fails at once: its first
      network is 1.0.0.0/24. */
  lemma DefaultLeavesPool()
    ensures var pool := Cidr(0x0a00_0000, 8);
            GeneratedSubnet(pool, 24, 1) == Some(Cidr(0x0100_0000, 24)) && !Within(Cidr(0x0100_0000, 24), pool)
  {
    var pool := Cidr(0x0a00_0000, 8);
    Limits();
    FourBytes(10, 0, 0, 0);
    ValueInjective(Bytes(4, pool.addr), [10, 0, 0, 0]);
    assert GeneratedBytes(pool, 24, 1) == [1, 0, 0, 0];
    FourBytes(1, 0, 0, 0);
    FirstByteOf([1, 0, 0, 0]);
    FirstByteOf([10, 0, 0, 0]);
    assert Covers(Cidr(0x0100_0000, 24), 0x0100_0000) && !Covers(pool, 0x0100_0000);
  }

  lemma FirstByteOf(b: seq<byte>)
    requires |b| == 4
    ensures Shift(Value(b), 24) == b[0]
  {
    PrefixValue(b, 1);
    assert b[..1] == [b[0]] && b[..1][..0] == [];
  }

  lemma FourBytes(a: byte, b: byte, c: byte, d: byte)
    ensures Value([a, b, c, d]) == 0x100_0000 * a + 0x1_0000 * b + 0x100 * c + d
  {
    assert [a][..0] == [] && Value([a]) == a;
    assert [a, b][..1] == [a] && Value([a, b]) == 0x100 * a + b;
    assert [a, b, c][..2] == [a, b] && Value([a, b, c]) == 0x1_0000 * a + 0x100 * b + c;
    assert [a, b, c, d][..3] == [a, b, c];
  }

  /** The generator repeats after its index space. */
  lemma GeneratorPeriod(pool: Cidr, size: int, i: nat)
    ensures GeneratedSubnet(pool, size, i + IndexSpace(pool, size)) == GeneratedSubnet(pool, size, i)
  {
    BytesOfResidue(i);
    BytesOfResidue(i + IndexSpace(pool, size));
    assert (i + 256) % 256 == i % 256 && (i + 65536) % 65536 == i % 65536;
  }
}

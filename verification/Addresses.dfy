/** net.IP values and the address arithmetic of pkg/cni/ipam.go and pkg/network/manager.go,
    computed on the bytes and specified on the number of the address.
 */
module Addresses {
  import opened ByteStrings

  /** The 16-byte form of an IPv4 address is this number plus the address. */
  const V4_MAPPED: nat := 0xffff_0000_0000

  const V4_SIZE: nat := 0x1_0000_0000

  const V16_SIZE: nat := 0x1_0000_0000_0000_0000_0000_0000_0000_0000

  /** A net.IP: its length, 4 or 16 bytes, and its big-endian value. */
  datatype RawIP = Bytes4(value: nat) | Bytes16(value: nat) {
    function Limit(): nat {
      if Bytes4? then V4_SIZE else V16_SIZE
    }

    /** The address itself, whichever form carries it. Two addresses print the same text,
        and net.IP.Equal holds of them, exactly when their numbers agree. */
    function Num(): nat {
      if Bytes4? then V4_MAPPED + value else value
    }

    /** To4 is not nil. */
    predicate IsV4() {
      V4_MAPPED <= Num() < V4_MAPPED + V4_SIZE
    }
  }

  type IP = ip: RawIP | ip.value < ip.Limit() witness Bytes4(0)

  function Next(ip: IP): IP {
    ip.(value := if ip.value + 1 == ip.Limit() then 0 else ip.value + 1)
  }

  function Prev(ip: IP): IP {
    ip.(value := if ip.value == 0 then ip.Limit() - 1 else ip.value - 1)
  }

  /** Stepping forward and stepping back undo each other, at the wrap as well. */
  lemma NextPrevInverse(ip: IP)
    ensures Prev(Next(ip)) == ip && Next(Prev(ip)) == ip
  {
  }

  lemma Limits()
    ensures Pow256(4) == V4_SIZE && Pow256(16) == V16_SIZE
  {
  }

  /** The bytes of an address. */
  function Octets(ip: IP): (b: seq<byte>)
    ensures |b| == (if ip.Bytes4? then 4 else 16) && Value(b) == ip.value
    ensures Pow256(|b|) == ip.Limit()
  {
    Limits();
    Bytes(if ip.Bytes4? then 4 else 16, ip.value)
  }

  function FromOctets(b: seq<byte>): (ip: IP)
    requires |b| == 4 || |b| == 16
    ensures ip.Bytes4? <==> |b| == 4
    ensures ip.value == Value(b)
  {
    Limits();
    if |b| == 4 then Bytes4(Value(b)) else Bytes16(Value(b))
  }

  /** An address and its bytes determine each other. */
  lemma OctetsRoundTrip(ip: IP, b: seq<byte>)
    requires |b| == 4 || |b| == 16
    ensures FromOctets(Octets(ip)) == ip && Octets(FromOctets(b)) == b
  {
    ValueInjective(Octets(FromOctets(b)), b);
  }

  /** incrementIP */
  method IncrementIP(ip: IP) returns (r: IP)
    ensures r == Next(ip)
  {
    var next := IncrementBytes(Octets(ip));
    r := FromOctets(next);
  }

  /** decrementIP */
  method DecrementIP(ip: IP) returns (r: IP)
    ensures r == Prev(ip)
  {
    var prev := DecrementBytes(Octets(ip));
    r := FromOctets(prev);
  }

  /** The successor of pkg/network/manager.go: the carry of a 16-byte IPv4 address never
      leaves its last four bytes. */
  function NextInFamily(ip: IP): IP {
    if ip == Bytes16(V4_MAPPED + V4_SIZE - 1) then Bytes16(V4_MAPPED) else Next(ip)
  }

  lemma SuccessorIsNext(ip: IP)
    ensures FromOctets(Successor(Octets(ip))) == Next(ip)
  {
  }

  /** incIP */
  method IncIP(ip: IP) returns (r: IP)
    ensures r == NextInFamily(ip)
  {
    var b := Octets(ip);
    var next;
    SuccessorIsNext(ip);
    if |b| == 16 && ip.IsV4() {
      next := IncrementAbove(b, 12);
      LastFour(ip, next);
    } else {
      next := IncrementAbove(b, 0);
      RippleEnds(b, next, -1);
    }
    r := FromOctets(next);
  }

  /** incIP agrees with incrementIP on 4-byte addresses. On a 16-byte IPv4 address it steps to the
      next IPv4 address and wraps at the last one, and on other addresses they agree again. */
  lemma IncIPIs(ip: IP)
    ensures ip.Bytes4? || !ip.IsV4() ==> NextInFamily(ip) == Next(ip)
    ensures ip.Bytes16? && ip.IsV4() ==>
              NextInFamily(ip) == Bytes16(if ip.value == 0xffff_ffff_ffff then 0xffff_0000_0000 else ip.value + 1)
  {
  }

  /** The carry of a 16-byte IPv4 address passes its last four bytes only at the last one. */
  lemma LastFour(ip: IP, next: seq<byte>)
    requires ip.Bytes16? && ip.IsV4()
    ensures AllFrom(Octets(ip), 12, 255) <==> ip.value == V4_MAPPED + V4_SIZE - 1
    ensures RippledTo(Octets(ip), next, 11) ==> Value(next) == V4_MAPPED
  {
    var b := Octets(ip);
    MappedHalves(ip);
    if RippledTo(b, next, 11) {
      Limits();
      SplitValue(next, 4);
      ValueOfConstant(next[12..]);
      assert next[..12] == b[..12];
    }
  }

  lemma MappedHalves(ip: IP)
    requires ip.Bytes16? && ip.IsV4()
    ensures Value(Octets(ip)[..12]) * V4_SIZE == V4_MAPPED
    ensures AllFrom(Octets(ip), 12, 255) <==> ip.value == V4_MAPPED + V4_SIZE - 1
  {
    var hi, lo := Octets(ip)[..12], Octets(ip)[12..];
    Limits();
    SplitValue(Octets(ip), 4);
    MappedParts(Value(hi), Value(lo));
    ValueOfConstant(lo);
    if ip.value == V4_MAPPED + V4_SIZE - 1 {
      ValueOfConstant([255, 255, 255, 255]);
      ValueInjective(lo, [255, 255, 255, 255]);
      assert forall k | 12 <= k < 16 :: Octets(ip)[k] == lo[k - 12];
    }
  }

  lemma MappedParts(hi: nat, lo: nat)
    requires lo < V4_SIZE && V4_MAPPED <= hi * V4_SIZE + lo < V4_MAPPED + V4_SIZE
    ensures hi * V4_SIZE == V4_MAPPED
  {
  }
}

/** The byte-wise successor and predecessor loops of pkg/cni/ipam.go and
    pkg/network/manager.go, refined to integer arithmetic on big-endian values.
 */
module ByteStrings {

  type byte = x: int | 0 <= x < 256

  function Pow256(n: nat): (r: nat)
    ensures r >= 1
  {
    if n == 0 then 1 else 256 * Pow256(n - 1)
  }

  /** The big-endian value of a byte string. */
  function Value(b: seq<byte>): (v: nat)
    ensures v < Pow256(|b|)
  {
    if |b| == 0 then 0 else Value(b[..|b| - 1]) * 256 + b[|b| - 1]
  }

  /** The n-byte big-endian encoding of v. */
  function Bytes(n: nat, v: nat): (b: seq<byte>)
    requires v < Pow256(n)
    ensures |b| == n && Value(b) == v
  {
    if n == 0 then [] else Bytes(n - 1, v / 256) + [v % 256]
  }

  lemma {:induction false} ValueInjective(a: seq<byte>, b: seq<byte>)
    requires |a| == |b| && Value(a) == Value(b)
    ensures a == b
  {
    if |a| > 0 {
      var n := |a| - 1;
      ValueInjective(a[..n], b[..n]);
      assert a == a[..n] + [a[n]] && b == b[..n] + [b[n]];
    }
  }

  /** Cutting a byte string in two cuts its value in two. */
  lemma {:induction false} SplitValue(b: seq<byte>, k: nat)
    requires k <= |b|
    ensures Value(b) == Value(b[..|b| - k]) * Pow256(k) + Value(b[|b| - k..])
    decreases k
  {
    if k == 0 {
      assert b[..|b|] == b;
    } else {
      var hi, lo := b[..|b| - k], b[|b| - k..];
      SplitValue(b[..|b| - 1], k - 1);
      CutAndDrop(b, k);
      OneMoreByte(Value(hi), Pow256(k - 1), Value(lo[..k - 1]), b[|b| - 1]);
    }
  }

  lemma CutAndDrop<T>(b: seq<T>, k: nat)
    requires 1 <= k <= |b|
    ensures b[..|b| - 1][..|b| - k] == b[..|b| - k]
    ensures b[..|b| - 1][|b| - k..] == b[|b| - k..][..k - 1]
    ensures b[|b| - k..][k - 1] == b[|b| - 1]
  {
  }

  lemma OneMoreByte(hi: nat, p: nat, lo: nat, last: nat)
    ensures (hi * p + lo) * 256 + last == hi * (256 * p) + (lo * 256 + last)
  {
  }

  /** Successor and predecessor modulo m. */
  function Up(v: nat, m: nat): (r: nat)
    requires v < m
    ensures r < m && (r == v + 1 || (r == 0 && v == m - 1))
  {
    if v + 1 == m then 0 else v + 1
  }

  function Down(v: nat, m: nat): (r: nat)
    requires v < m
    ensures r < m && Up(r, m) == v
  {
    if v == 0 then m - 1 else v - 1
  }

  function Successor(ip: seq<byte>): (r: seq<byte>)
    ensures |r| == |ip| && Value(r) == Up(Value(ip), Pow256(|ip|))
  {
    Bytes(|ip|, Up(Value(ip), Pow256(|ip|)))
  }

  function Predecessor(ip: seq<byte>): (r: seq<byte>)
    ensures |r| == |ip|
  {
    Bytes(|ip|, Down(Value(ip), Pow256(|ip|)))
  }

  /** Stepping forward and stepping back undo each other, at the wrap as well. */
  lemma StepsInverse(ip: seq<byte>)
    ensures Predecessor(Successor(ip)) == ip
    ensures Successor(Predecessor(ip)) == ip
  {
    ValueInjective(Predecessor(Successor(ip)), ip);
    ValueInjective(Successor(Predecessor(ip)), ip);
  }

  /** Every byte from position i on is x. */
  predicate AllFrom(b: seq<byte>, i: nat, x: byte) {
    forall k | i <= k < |b| :: b[k] == x
  }

  lemma {:induction false} ValueOfConstant(b: seq<byte>)
    ensures AllFrom(b, 0, 0) ==> Value(b) == 0
    ensures AllFrom(b, 0, 255) ==> Value(b) == Pow256(|b|) - 1
  {
    if |b| > 0 {
      ValueOfConstant(b[..|b| - 1]);
    }
  }

  /** A carry that entered at the last byte of was has rippled down to position j. */
  predicate RippledTo(was: seq<byte>, now: seq<byte>, j: int) {
    && |now| == |was| && -1 <= j < |was|
    && (forall k | 0 <= k <= j :: now[k] == was[k])
    && AllFrom(was, j + 1, 255) && AllFrom(now, j + 1, 0)
  }

  /** What a carry that stops at position j does to the value. */
  lemma {:induction false} CarryStops(was: seq<byte>, now: seq<byte>, j: nat)
    requires |now| == |was| && j < |was|
    requires now[..j] == was[..j] && now[j] as int == was[j] as int + 1
    requires AllFrom(was, j + 1, 255) && AllFrom(now, j + 1, 0)
    ensures Value(now) == Value(was) + 1
  {
    var n := |was| - 1;
    if j < n {
      assert now[..n][..j] == now[..j] && was[..n][..j] == was[..j];
      CarryStops(was[..n], now[..n], j);
    }
  }

  /** The last step of the ripple: it absorbs the carry at j, or has run out of bytes. */
  lemma RippleEnds(was: seq<byte>, s: seq<byte>, j: int)
    requires -1 <= j < |was|
    ensures RippledTo(was, s, j) && j >= 0 && was[j] < 255 ==> s[j := was[j] + 1] == Successor(was)
    ensures RippledTo(was, s, j) && j < 0 ==> s == Successor(was)
  {
    if !RippledTo(was, s, j) {
    } else if j < 0 {
      ValueOfConstant(was);
      ValueOfConstant(s);
      ValueInjective(s, Successor(was));
    } else if was[j] < 255 {
      var now := s[j := was[j] + 1];
      assert now[..j] == was[..j];
      CarryStops(was, now, j);
      ValueInjective(now, Successor(was));
    }
  }

  /** The loop of incrementIP: copies the address and ripples a carry from the last byte. */
  method IncrementBytes(ip: seq<byte>) returns (r: seq<byte>)
    ensures r == Successor(ip)
  {
    r := IncrementAbove(ip, 0);
    RippleEnds(ip, r, -1);
  }

  /** The loop of incIP: the same ripple, but the carry never passes below position stop. */
  method IncrementAbove(ip: seq<byte>, stop: nat) returns (r: seq<byte>)
    requires stop <= |ip|
    ensures !AllFrom(ip, stop, 255) ==> r == Successor(ip)
    ensures AllFrom(ip, stop, 255) ==> RippledTo(ip, r, stop - 1)
  {
    var next := new byte[|ip|](i requires 0 <= i < |ip| => ip[i]);
    var j := |ip| - 1;
    while j >= stop
      invariant stop - 1 <= j < |ip|
      invariant RippledTo(ip, next[..], j)
    {
      ghost var s := next[..];
      RippleEnds(ip, s, j);
      var b: int := next[j];
      next[j] := (b + 1) % 256;
      assert next[..] == s[j := next[j]];
      if next[j] > 0 {
        return next[..];
      }
      j := j - 1;
    }
    r := next[..];
  }

  /** The loop of decrementIP: copies the address and ripples a borrow from the last byte. */
  method DecrementBytes(ip: seq<byte>) returns (r: seq<byte>)
    ensures r == Predecessor(ip)
  {
    var prev := new byte[|ip|](i requires 0 <= i < |ip| => ip[i]);
    var i := |ip| - 1;
    while i >= 0
      invariant -1 <= i < |ip|
      invariant RippledTo(prev[..], ip, i)
    {
      ghost var s := prev[..];
      var b: int := prev[i];
      var d: byte := (b + 255) % 256;
      assert d as int == if b == 0 then 255 else b - 1;
      prev[i] := d;
      assert prev[..] == s[i := d];
      if prev[i] != 255 {
        BorrowEnds(ip, s, i);
        return prev[..];
      }
      i := i - 1;
    }
    ValueOfConstant(ip);
    ValueOfConstant(prev[..]);
    r := prev[..];
    ValueInjective(r, Predecessor(ip));
  }

  lemma BorrowEnds(was: seq<byte>, s: seq<byte>, i: nat)
    requires RippledTo(s, was, i) && was[i] > 0
    ensures s[i := was[i] - 1] == Predecessor(was)
  {
    var now := s[i := was[i] - 1];
    assert was[..i] == now[..i];
    CarryStops(now, was, i);
    ValueInjective(now, Predecessor(was));
  }
}

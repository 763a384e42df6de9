/** What the operations of the IPAM manager return, stated on the ledger, the reserved list and
    the cursor of the pool they name.
 */
module ManagerTheorems {
  import opened Addresses
  import opened Bits
  import opened Options
  import opened Subnets
  import opened Ipam
  import opened PoolTheorems

  /** Neither used nor reserved. */
  predicate Free(p: Pool, a: nat) {
    a !in p.used && forall i | 0 <= i < |p.reserved| :: p.reserved[i].Num() != a
  }

  // ----- CreatePool -----

  /** The network that a CIDR text denotes has the prefix length written, contains the address
      written, and starts at a multiple of its size; net.ParseCIDR returns the address as well. */
  lemma ParsedIs(c: Cidr)
    ensures match ParseCIDR(c)
            case Some((subnet, ip)) =>
              && 0 <= c.addr < V4_SIZE && 0 <= c.ones <= 32
              && subnet.ones == c.ones && subnet.addr <= c.addr < subnet.addr + Pow2(32 - c.ones)
              && ip == Bytes16(V4_MAPPED + c.addr)
            case None => !(c.addr < V4_SIZE && 0 <= c.ones <= 32)
  {
  }

  /** CreatePool keeps a pool it finds and fails on bad text. A new pool is empty, reserves its
      gateway, which defaults to the address after the one written, and starts after it. */
  lemma CreatedIs(ps: Pools, c: Cidr, gateway: Option<IP>)
    ensures var qs := Created(ps, c, gateway);
            if c in ps || ParseCIDR(c).None? then qs == ps
            else
              && qs.Keys == ps.Keys + {c} && (forall d | d in ps :: qs[d] == ps[d])
              && qs[c].subnet == ParseCIDR(c).value.0
              && qs[c].gateway == (if gateway.Some? then gateway.value else Bytes16(V4_MAPPED + c.addr + 1))
              && qs[c].used == map[] && qs[c].reserved == [qs[c].gateway] && qs[c].next == Next(qs[c].gateway)
  {
  }

  // ----- AllocateIP -----

  /** Every address that the scan passes over on its way from one address of the subnet to
      another is taken: directly, or by way of the last address and the gateway. */
  predicate PassesOnlyTaken(p: Pool, from: nat, a: nat) {
    || (from <= a && forall b | from <= b < a :: !Free(p, b))
    || (p.gateway.Num() < a && (forall b | from <= b <= p.subnet.Last() :: !Free(p, b))
        && forall b | p.gateway.Num() < b < a :: !Free(p, b))
  }

  lemma {:induction false} ScanIsFirst(p: Pool, ip: IP, attempts: nat)
    requires p.subnet.ones >= 1 && HasHosts(p) && Contains(p.subnet, ip)
    ensures match Scan(p, ip, attempts)
            case Some(r) => Contains(p.subnet, r) && Free(p, r.Num()) && PassesOnlyTaken(p, ip.Num(), r.Num())
            case None => true
    decreases attempts
  {
    StepInside(p.subnet, p.gateway);
    if attempts > 0 && Taken(p, ip.Num()) {
      StepInside(p.subnet, ip);
      ScanIsFirst(p, Advance(p, ip), attempts - 1);
    }
  }

  /** AllocateIP gives the cursor when it is free. Otherwise it gives the first free address of
      the subnet from the next candidate on: the cursor plus one, or the address after the
      gateway when that has left the subnet. */
  predicate IsFirst(p: Pool, ip: IP) {
    if Free(p, p.next.Num()) then ip == p.next
    else
      && Contains(p.subnet, ip)
      && PassesOnlyTaken(p, (if Contains(p.subnet, p.next) then p.next.Num()
                             else if Contains(p.subnet, Next(p.next)) then Next(p.next).Num()
                             else p.gateway.Num() + 1), ip.Num())
  }

  /** The k-th address that AllocateIP tries: the cursor, and after each its successor, or the one
      after the gateway when the successor is not in the subnet. */
  function Candidate(p: Pool, ip: IP, k: nat): IP
    decreases k
  {
    if k == 0 then ip
    else Candidate(p, if Contains(p.subnet, Next(ip)) then Next(ip) else Next(p.gateway), k - 1)
  }

  lemma {:induction false} ScanTries(p: Pool, ip: IP, attempts: nat) returns (k: nat)
    ensures k <= attempts && forall j: nat | j < k :: !Free(p, Candidate(p, ip, j).Num())
    ensures match Scan(p, ip, attempts)
            case Some(r) => k < attempts && r == Candidate(p, ip, k) && Free(p, r.Num())
            case None => k == attempts
    decreases attempts
  {
    k := 0;
    if attempts > 0 && Taken(p, ip.Num()) {
      var l := ScanTries(p, Advance(p, ip), attempts - 1);
      k := l + 1;
      forall j: nat | j < k
        ensures !Free(p, Candidate(p, ip, j).Num())
      {
        if j > 0 {
          assert Candidate(p, ip, j) == Candidate(p, Advance(p, ip), j - 1);
        }
      }
    }
  }

  /** AllocateIP, on its result, for every pool: a success takes the first of 256 candidates that
      is neither used nor reserved, which is the cursor when the cursor is free, enters it under
      its owner and moves the cursor past it. A failure changes nothing; it happens when there is
      no pool, and otherwise exactly when all 256 are used or reserved. */
  lemma AllocateIPResult(ps: Pools, c: Cidr, owner: string)
    ensures match Allocated(ps, c, owner)
            case (qs, Ok(ip)) =>
              && c in ps && Free(ps[c], ip.Num()) && (Free(ps[c], ps[c].next.Num()) ==> ip == ps[c].next)
              && qs == ps[c := ps[c].(used := ps[c].used[ip.Num() := owner], next := Next(ip))]
              && exists k: nat :: k < 256 && ip == Candidate(ps[c], ps[c].next, k)
                   && forall j: nat | j < k :: !Free(ps[c], Candidate(ps[c], ps[c].next, j).Num())
            case (qs, Err(e)) => qs == ps && e == if c in ps then Exhausted else PoolNotFound
    ensures c in ps ==>
              (Allocated(ps, c, owner).1.Err? <==>
               forall k: nat | k < 256 :: !Free(ps[c], Candidate(ps[c], ps[c].next, k).Num()))
  {
    if c in ps {
      var _ := ScanTries(ps[c], ps[c].next, 256);
      assert Candidate(ps[c], ps[c].next, 0) == ps[c].next;
    }
  }

  /** In a subnet with hosts: the address is the first free one going up from the cursor and, after
      the last address, from the gateway; and the call fails exactly when every address of the
      window is used or reserved. */
  lemma AllocateIPInSubnet(ps: Pools, c: Cidr, owner: string)
    requires c in ps && ps[c].subnet.ones >= 1 && HasHosts(ps[c])
    ensures match Allocated(ps, c, owner).1
            case Ok(ip) => IsFirst(ps[c], ip)
            case Err(_) => true
    ensures Allocated(ps, c, owner).1.Err? <==> forall a | Window(ps[c], a) :: !Free(ps[c], a)
  {
    var p := ps[c];
    AllocateIPFailsIff(p, owner);
    assert forall a: nat :: Free(p, a) <==> !Taken(p, a);
    if Contains(p.subnet, p.next) {
      ScanIsFirst(p, p.next, 256);
    } else if Taken(p, p.next.Num()) {
      StepInside(p.subnet, p.gateway);
      ScanIsFirst(p, Advance(p, p.next), 255);
    }
  }

  /** Successive AllocateIP calls on one pool, with their results. */
  function AllocatedAll(ps: Pools, c: Cidr, owners: seq<string>): (Pools, seq<Result<IP>>) {
    if |owners| == 0 then (ps, [])
    else
      var (qs, results) := AllocatedAll(ps, c, owners[..|owners| - 1]);
      var (rs, r) := Allocated(qs, c, owners[|owners| - 1]);
      (rs, results + [r])
  }

  /** CreatePool and then AllocateIP calls: call k gives the address k above the gateway, inside
      the subnet or not, and never the gateway. */
  lemma {:induction false} NewPoolInOrder(ps: Pools, c: Cidr, gateway: IP, owners: seq<string>)
    requires c !in ps && ParseCIDR(c).Some? && gateway.Bytes16? && gateway.value + |owners| + 1 < V16_SIZE
    ensures var (qs, results) := AllocatedAll(Created(ps, c, Some(gateway)), c, owners);
            && |results| == |owners| && c in qs
            && (forall k | 0 <= k < |owners| :: results[k] == Ok(Bytes16(gateway.value + 1 + k)))
            && qs[c].subnet == ParseCIDR(c).value.0 && qs[c].gateway == gateway && qs[c].reserved == [gateway]
            && qs[c].next == Bytes16(gateway.value + 1 + |owners|)
            && (forall a | a in qs[c].used :: a < qs[c].next.Num())
  {
    if |owners| > 0 {
      var n := |owners| - 1;
      NewPoolInOrder(ps, c, gateway, owners[..n]);
      var qs := AllocatedAll(Created(ps, c, Some(gateway)), c, owners[..n]).0;
      AllocateIPResult(qs, c, owners[n]);
      NextIsFree(qs[c]);
      assert Candidate(qs[c], qs[c].next, 0) == qs[c].next;
    }
  }

  lemma NextIsFree(p: Pool)
    requires p.reserved == [p.gateway] && p.gateway.Num() < p.next.Num()
    requires forall a | a in p.used :: a < p.next.Num()
    ensures Free(p, p.next.Num())
  {
  }

  // ----- AllocateVIP -----

  /** Where the downward scan starts, for every size of subnet. */
  lemma VIPStartIs(n: Subnet)
    ensures VIPRangeStart(n).Bytes4?
    ensures VIPRangeStart(n).Num() == n.Base() + if n.HostBits() >= 5 then Pow2(n.HostBits()) - 17 else 0
  {
    if n.HostBits() >= 5 {
      VIPStart(n);
    } else {
      Pow2Mono(n.HostBits(), 4);
      assert Pow2(2) == 4 && Pow2(4) == 16;
    }
  }

  lemma {:induction false} ScanDownIsFirst(p: Pool, ip: IP, attempts: nat) returns (k: nat)
    ensures k <= attempts && forall j: nat | j < k :: !Free(p, StepsDown(ip, j).Num())
    ensures match ScanDown(p, ip, attempts)
            case Some(r) => k < attempts && r == StepsDown(ip, k) && Free(p, r.Num())
            case None => k == attempts
    decreases attempts
  {
    k := 0;
    if attempts > 0 && Taken(p, ip.Num()) {
      var l := ScanDownIsFirst(p, Prev(ip), attempts - 1);
      k := l + 1;
      forall j: nat | j < k
        ensures !Free(p, StepsDown(ip, j).Num())
      {
        if j > 0 {
          assert StepsDown(ip, j) == StepsDown(Prev(ip), j - 1);
        }
      }
    }
  }

  /** AllocateVIP, on its result: of the 16 addresses from the start of the range downward it
      takes the first that is neither used nor reserved and enters it as "vip:" and the service;
      the cursor stays. It fails when there is no pool, and otherwise exactly when all 16 are
      used or reserved. */
  lemma AllocateVIPResult(ps: Pools, c: Cidr, sid: string)
    ensures match VIPAllocated(ps, c, sid)
            case (qs, Ok(ip)) =>
              && c in ps && Free(ps[c], ip.Num())
              && qs == ps[c := ps[c].(used := ps[c].used[ip.Num() := "vip:" + sid])]
              && exists k: nat :: k < 16 && ip == StepsDown(VIPRangeStart(ps[c].subnet), k)
                   && forall j: nat | j < k :: !Free(ps[c], StepsDown(VIPRangeStart(ps[c].subnet), j).Num())
            case (qs, Err(e)) => qs == ps && e == if c in ps then Exhausted else PoolNotFound
    ensures c in ps ==>
              (VIPAllocated(ps, c, sid).1.Err? <==>
               forall k: nat | k < 16 :: !Free(ps[c], StepsDown(VIPRangeStart(ps[c].subnet), k).Num()))
  {
    if c in ps {
      var _ := ScanDownIsFirst(ps[c], VIPRangeStart(ps[c].subnet), 16);
    }
  }

  // ----- ReleaseIP -----

  /** ReleaseIP succeeds exactly on a used address of an existing pool, and then that address can
      be taken again unless it is reserved; everything else is as before. */
  lemma ReleaseResult(ps: Pools, c: Cidr, a: Option<nat>)
    ensures var (qs, r) := Released(ps, c, a);
            && (r.Ok? <==> c in ps && a.Some? && a.value in ps[c].used)
            && (r.Err? ==> qs == ps && r.error == if c in ps then NotAllocated else PoolNotFound)
            && qs.Keys == ps.Keys && (forall d | d in ps && d != c :: qs[d] == ps[d])
            && (c in ps ==> qs[c] == ps[c].(used := qs[c].used))
            && (c in ps ==> forall b :: b in qs[c].used <==> b in ps[c].used && a != Some(b))
            && (c in ps ==> forall b | b in qs[c].used :: qs[c].used[b] == ps[c].used[b])
  {
  }
}

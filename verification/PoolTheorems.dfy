/** What the scans of one address pool promise, for every pool and over every run. */
module PoolTheorems {
  import opened Addresses
  import opened Bits
  import opened Options
  import opened Subnets
  import opened Ipam

  /** The gateway and the address after it lie in the subnet. */
  predicate HasHosts(p: Pool) {
    Contains(p.subnet, p.gateway) && Contains(p.subnet, Next(p.gateway))
  }

  /** The cursor is in the subnet, or stepping it does not lead back in at the base. */
  predicate CursorSound(p: Pool) {
    Contains(p.subnet, p.next) || !Contains(p.subnet, Next(p.next))
  }

  /** Inside a subnet with a proper prefix, stepping is adding one, and leads out at the end. */
  lemma StepInside(n: Subnet, ip: IP)
    requires n.ones >= 1 && Contains(n, ip)
    ensures Contains(n, Next(ip)) <==> ip.Num() < n.Last()
    ensures Contains(n, Next(ip)) ==> Next(ip).Num() == ip.Num() + 1
  {
    InNetwork(n);
    Pow2Mono(n.HostBits(), 31);
    Powers();
    assert Pow2(32) == 2 * Pow2(31);
  }

  lemma SmallSubnet(n: Subnet)
    requires n.HostBits() <= 8
    ensures n.ones >= 1 && n.Size() <= 256
  {
    Pow2Mono(n.HostBits(), 8);
    Powers();
  }

  lemma {:induction false} ScanFromInside(p: Pool, ip: IP, attempts: nat)
    requires p.subnet.ones >= 1 && HasHosts(p) && Contains(p.subnet, ip)
    ensures match Scan(p, ip, attempts)
            case Some(r) =>
              && Contains(p.subnet, r) && !Taken(p, r.Num())
              && (ip.Num() <= r.Num() || p.gateway.Num() < r.Num())
            case None => true
    decreases attempts
  {
    StepInside(p.subnet, p.gateway);
    if attempts > 0 && Taken(p, ip.Num()) {
      StepInside(p.subnet, ip);
      ScanFromInside(p, Advance(p, ip), attempts - 1);
    }
  }

  /** Where n attempts from an address of the subnet lead: up to the last address, and with the
      attempts that are left upward from the gateway. */
  predicate Reached(p: Pool, from: nat, n: nat, a: nat) {
    || (from <= a <= p.subnet.Last() && a < from + n)
    || (p.gateway.Num() < a <= p.subnet.Last() && a <= p.gateway.Num() + n - (p.subnet.Last() - from + 1))
  }

  lemma {:induction false} ScanFailsIff(p: Pool, ip: IP, attempts: nat)
    requires p.subnet.ones >= 1 && HasHosts(p) && Contains(p.subnet, ip)
    ensures Scan(p, ip, attempts).None? <==> forall a | Reached(p, ip.Num(), attempts, a) :: Taken(p, a)
    decreases attempts
  {
    if attempts > 0 {
      var next := Advance(p, ip);
      StepInside(p.subnet, ip);
      StepInside(p.subnet, p.gateway);
      ScanFailsIff(p, next, attempts - 1);
      forall a
        ensures Reached(p, ip.Num(), attempts, a) <==> a == ip.Num() || Reached(p, next.Num(), attempts - 1, a)
      {
      }
    }
  }

  /** AllocateIP adds exactly one key, neither used nor reserved before, under its owner,
      and moves the cursor past it. The address is inside the subnet exactly when the cursor
      was inside, or stood on a taken address. */
  lemma AllocateIPSafe(p: Pool, owner: string)
    requires p.subnet.ones >= 1 && HasHosts(p)
    ensures match AllocateFrom(p, owner)
            case (q, Some(ip)) =>
              && !Taken(p, ip.Num())
              && q == p.(used := p.used[ip.Num() := owner], next := Next(ip))
              && (Contains(p.subnet, ip) <==> Contains(p.subnet, p.next) || Taken(p, p.next.Num()))
              && (p.gateway.Num() < p.next.Num() && CursorSound(p) ==> p.gateway.Num() < ip.Num())
            case (q, None) => q == p
  {
    if Contains(p.subnet, p.next) {
      ScanFromInside(p, p.next, 256);
    } else if Taken(p, p.next.Num()) {
      StepInside(p.subnet, p.gateway);
      ScanFromInside(p, Advance(p, p.next), 255);
    }
  }

  /** The addresses that AllocateIP tries: the cursor, and what the scan reaches from it, or
      from the next candidate when the cursor is outside the subnet. */
  predicate Window(p: Pool, a: nat) {
    || a == p.next.Num()
    || (if Contains(p.subnet, p.next) then Reached(p, p.next.Num(), 256, a)
        else Reached(p, Advance(p, p.next).Num(), 255, a))
  }

  /** For every pool, of any size and with any cursor, AllocateIP fails exactly when every
      address of its window is used or reserved. */
  lemma AllocateIPFailsIff(p: Pool, owner: string)
    requires p.subnet.ones >= 1 && HasHosts(p)
    ensures AllocateFrom(p, owner).1.None? <==> forall a | Window(p, a) :: Taken(p, a)
  {
    if Contains(p.subnet, p.next) {
      ScanFailsIff(p, p.next, 256);
    } else {
      StepInside(p.subnet, p.gateway);
      ScanFailsIff(p, Advance(p, p.next), 255);
    }
  }

  /** In a subnet of at most 256 addresses the window of a sound cursor is every address above
      the gateway and every address from the cursor on. */
  lemma SmallExhaustedIff(p: Pool, owner: string)
    requires p.subnet.HostBits() <= 8 && HasHosts(p) && CursorSound(p)
    ensures AllocateFrom(p, owner).1.None? <==>
            Taken(p, p.next.Num()) &&
            (forall a | p.gateway.Num() < a <= p.subnet.Last() :: Taken(p, a)) &&
            (Contains(p.subnet, p.next) ==> forall a | p.next.Num() <= a <= p.subnet.Last() :: Taken(p, a))
  {
    SmallSubnet(p.subnet);
    AllocateIPFailsIff(p, owner);
    StepInside(p.subnet, p.gateway);
    forall a: nat
      ensures Window(p, a) <==>
              || a == p.next.Num() || p.gateway.Num() < a <= p.subnet.Last()
              || (Contains(p.subnet, p.next) && p.next.Num() <= a <= p.subnet.Last())
    {
    }
  }

  /** Pools of one subnet, whatever their ledger and wherever above the gateway their cursor
      stands, report exhaustion only when every address above the gateway is taken. */
  ghost predicate Complete(subnet: Subnet, gateway: IP) {
    forall p: Pool, owner: string, a: nat |
      p.subnet == subnet && p.gateway == gateway && gateway.Num() < p.next.Num() <= subnet.Last()
      && AllocateFrom(p, owner).1.None? && gateway.Num() < a <= subnet.Last() :: Taken(p, a)
  }

  /** That holds exactly when there are at most 256 addresses above the gateway. */
  lemma CompleteIff(subnet: Subnet, gateway: IP)
    requires subnet.ones >= 1 && HasHosts(NewPool(subnet, gateway))
    ensures Complete(subnet, gateway) <==> subnet.Last() <= gateway.Num() + 256
  {
    if subnet.Last() <= gateway.Num() + 256 {
      forall p: Pool, owner: string, a: nat |
        p.subnet == subnet && p.gateway == gateway && gateway.Num() < p.next.Num() <= subnet.Last()
        && AllocateFrom(p, owner).1.None? && gateway.Num() < a <= subnet.Last()
        ensures Taken(p, a)
      {
        AllocateIPFailsIff(p, owner);
        assert Window(p, a);
      }
    } else {
      GivesUpEarly(subnet, gateway);
    }
  }

  function Numbers(from: nat, n: nat): (s: seq<nat>)
    ensures |s| == n && forall i | 0 <= i < n :: s[i] == from + i
  {
    seq(n, i requires 0 <= i => from + i)
  }

  function UsedAll(addresses: seq<nat>): map<nat, string> {
    map a | a in addresses :: ""
  }

  /** The pool in which the first 256 addresses above the gateway are used. */
  function FirstUsed(subnet: Subnet, gateway: IP): Pool {
    Pool(subnet, gateway, UsedAll(Numbers(gateway.Num() + 1, 256)), [gateway], Next(gateway))
  }

  /** With more addresses than that, a pool reports exhaustion while the next one is free. */
  lemma GivesUpEarly(subnet: Subnet, gateway: IP)
    requires subnet.ones >= 1 && HasHosts(NewPool(subnet, gateway)) && gateway.Num() + 257 <= subnet.Last()
    ensures var p := FirstUsed(subnet, gateway);
            && p.subnet == subnet && p.gateway == gateway && p.next.Num() == gateway.Num() + 1
            && AllocateFrom(p, "").1.None? && !Taken(p, gateway.Num() + 257)
  {
    var p := FirstUsed(subnet, gateway);
    StepInside(subnet, gateway);
    AllocateIPFailsIff(p, "");
    forall a | gateway.Num() < a <= gateway.Num() + 256
      ensures a in p.used
    {
      assert Numbers(gateway.Num() + 1, 256)[a - gateway.Num() - 1] == a;
    }
    assert p.reserved[0] == gateway;
  }

  // ----- VIPs -----

  function StepsDown(ip: IP, k: nat): IP
    decreases k
  {
    if k == 0 then ip else StepsDown(Prev(ip), k - 1)
  }

  lemma {:induction false} StepsDownValue(ip: IP, k: nat)
    requires k <= ip.value
    ensures StepsDown(ip, k) == ip.(value := ip.value - k)
    decreases k
  {
    if k > 0 {
      StepsDownValue(Prev(ip), k - 1);
    }
  }

  lemma VIPStart(n: Subnet)
    requires n.HostBits() >= 5
    ensures n.Size() >= 32 && VIPRangeStart(n) == Bytes4(n.addr + n.Size() - 17)
  {
    Pow2Mono(5, n.HostBits());
    assert Pow2(3) == 8 && Pow2(5) == 32;
  }

  /** The candidates of AllocateVIP all lie in the subnet exactly when it has at least 32
      addresses; they are then the offsets from 17 to 32 below the end. */
  lemma VIPWindowInsideIff(n: Subnet)
    requires n.ones >= 1
    ensures n.HostBits() >= 5 <==>
            forall k: nat | k < 16 :: Contains(n, StepsDown(VIPRangeStart(n), k))
    ensures n.HostBits() >= 5 ==>
            forall k: nat | k < 16 :: StepsDown(VIPRangeStart(n), k).Num() == n.Base() + n.Size() - 17 - k
  {
    InNetwork(n);
    if n.HostBits() >= 5 {
      VIPStart(n);
      forall k: nat | k < 16
        ensures StepsDown(VIPRangeStart(n), k).Num() == n.Base() + n.Size() - 17 - k
      {
        StepsDownValue(VIPRangeStart(n), k);
      }
    } else {
      Pow2Mono(n.HostBits(), 4);
      assert Pow2(2) == 4 && Pow2(4) == 16;
      assert StepsDown(VIPRangeStart(n), 1) == Prev(Bytes4(n.addr));
    }
  }

  lemma {:induction false} ScanDownIs(p: Pool, ip: IP, attempts: nat)
    requires ip.Bytes4? && attempts <= ip.value + 1
    ensures match ScanDown(p, ip, attempts)
            case Some(r) =>
              && r.Bytes4? && r.value <= ip.value < r.value + attempts && !Taken(p, r.Num())
              && (forall a | r.Num() < a <= ip.Num() :: Taken(p, a))
            case None => forall a | ip.Num() - attempts < a <= ip.Num() :: Taken(p, a)
    decreases attempts
  {
    if attempts > 1 && Taken(p, ip.Num()) {
      ScanDownIs(p, Prev(ip), attempts - 1);
    }
  }

  /** AllocateVIP takes the highest free address of its window of 16, inside the subnet, and
      fails exactly when all 16 are used or reserved. */
  lemma AllocateVIPHighestFree(p: Pool, serviceID: string)
    requires p.subnet.HostBits() >= 5
    ensures var top := p.subnet.Base() + p.subnet.Size() - 17;
            match AllocateVIPFrom(p, serviceID)
            case (q, Some(ip)) =>
              && top - 16 < ip.Num() <= top && Contains(p.subnet, ip)
              && !Taken(p, ip.Num()) && (forall a | ip.Num() < a <= top :: Taken(p, a))
              && q == p.(used := p.used[ip.Num() := VIPOwner(serviceID)])
            case (q, None) => q == p && forall a | top - 16 < a <= top :: Taken(p, a)
  {
    VIPStart(p.subnet);
    ScanDownIs(p, VIPRangeStart(p.subnet), 16);
  }

  /** For every subnet, AllocateVIP takes an address that was free, and only that. */
  lemma {:induction false} ScanDownFree(p: Pool, ip: IP, attempts: nat)
    ensures var r := ScanDown(p, ip, attempts); r.Some? ==> !Taken(p, r.value.Num())
    decreases attempts
  {
    if attempts > 0 && Taken(p, ip.Num()) {
      ScanDownFree(p, Prev(ip), attempts - 1);
    }
  }

  lemma {:induction false} ScanFree(p: Pool, ip: IP, attempts: nat)
    ensures var r := Scan(p, ip, attempts); r.Some? ==> !Taken(p, r.value.Num())
    decreases attempts
  {
    if attempts > 0 && Taken(p, ip.Num()) {
      ScanFree(p, Advance(p, ip), attempts - 1);
    }
  }

  // ----- Runs of one pool -----

  datatype PoolOp = AllocateOp(owner: string) | VIPOp(serviceID: string) | ReleaseOp(a: nat)

  function PoolStep(p: Pool, op: PoolOp): Pool {
    match op
    case AllocateOp(owner) => AllocateFrom(p, owner).0
    case VIPOp(serviceID) => AllocateVIPFrom(p, serviceID).0
    case ReleaseOp(a) => ReleaseFrom(p, a)
  }

  function PoolRun(p: Pool, ops: seq<PoolOp>): Pool {
    if |ops| == 0 then p else PoolStep(PoolRun(p, ops[..|ops| - 1]), ops[|ops| - 1])
  }

  /** The addresses of the VIP window. */
  predicate InVIPWindow(n: Subnet, a: nat) {
    n.HostBits() >= 5 && n.Last() - 31 <= a <= n.Last() - 16
  }

  /** How far a cursor may move up before it meets the end of the 16-byte form, or an address
      that the VIP scan of a small subnet reaches by wrapping below 0.0.0.0. */
  function Horizon(n: Subnet): nat {
    if n.HostBits() >= 5 || n.addr >= 15 then V16_SIZE - 2 else V4_MAPPED + V4_SIZE - 16
  }

  /** The cursor is above the gateway, and above it only VIPs are used. */
  predicate PoolInv(p: Pool, gateway: IP) {
    && p.gateway == gateway && p.reserved == [gateway] && HasHosts(p)
    && p.gateway.Bytes16? && p.next.Bytes16? && gateway.Num() < p.next.Num()
    && gateway.Num() !in p.used
    && forall a | a in p.used :: a < p.next.Num() || InVIPWindow(p.subnet, a) || a > Horizon(p.subnet)
  }

  /** A scan that goes up through a VIP window ends above it, at the latest. */
  lemma {:induction false} ScanUp(p: Pool, gateway: IP, ip: IP, attempts: nat)
    requires p.subnet.ones >= 1 && PoolInv(p, gateway)
    requires ip.Bytes16? && p.next.Num() <= ip.Num() <= Horizon(p.subnet)
    requires attempts > 0 && (InVIPWindow(p.subnet, ip.Num()) ==> attempts >= p.subnet.Last() - ip.Num() - 14)
    ensures match Scan(p, ip, attempts)
            case Some(r) =>
              && r.Bytes16? && ip.Num() <= r.Num() && !Taken(p, r.Num())
              && (forall a | ip.Num() <= a < r.Num() :: a in p.used && InVIPWindow(p.subnet, a))
            case None => false
    decreases attempts
  {
    assert p.reserved[0] == gateway;
    if Taken(p, ip.Num()) {
      assert InVIPWindow(p.subnet, ip.Num());
      InNetwork(p.subnet);
      StepInside(p.subnet, ip);
      ScanUp(p, gateway, Next(ip), attempts - 1);
    }
  }

  /** A downward scan of 4-byte addresses stays below its start unless it wraps. */
  lemma {:induction false} ScanDownReach(p: Pool, ip: IP, attempts: nat)
    requires ip.Bytes4? && attempts <= V4_SIZE
    ensures match ScanDown(p, ip, attempts)
            case Some(r) =>
              && r.Bytes4? && !Taken(p, r.Num())
              && (ip.value - attempts < r.value <= ip.value || r.value > ip.value + V4_SIZE - attempts)
            case None => true
    decreases attempts
  {
    if attempts > 0 && Taken(p, ip.Num()) {
      ScanDownReach(p, Prev(ip), attempts - 1);
    }
  }

  lemma VIPKeepsInv(p: Pool, gateway: IP, serviceID: string)
    requires p.subnet.ones >= 1 && PoolInv(p, gateway)
    ensures PoolInv(AllocateVIPFrom(p, serviceID).0, gateway)
  {
    assert p.reserved[0] == gateway;
    if p.subnet.HostBits() >= 5 {
      AllocateVIPHighestFree(p, serviceID);
    } else {
      Pow2Mono(p.subnet.HostBits(), 4);
      assert Pow2(2) == 4 && Pow2(4) == 16;
      ScanDownReach(p, VIPRangeStart(p.subnet), 16);
    }
  }

  /** Over every run of a pool made with a 16-byte gateway, as AllocateNetwork makes it, the
      cursor stays above the gateway, so it never stands just below the base; the gateway is
      never handed out; and above the cursor only VIPs are used. */
  lemma {:induction false} PoolRunInvariant(subnet: Subnet, gateway: IP, ops: seq<PoolOp>)
    requires subnet.ones >= 1 && gateway.Bytes16? && HasHosts(NewPool(subnet, gateway))
    requires subnet.Last() + |ops| <= Horizon(subnet)
    ensures var p := PoolRun(NewPool(subnet, gateway), ops);
            && p.subnet == subnet && PoolInv(p, gateway) && CursorSound(p)
            && p.next.Num() <= subnet.Last() + 1 + |ops|
  {
    InNetwork(subnet);
    if |ops| == 0 {
      StepInside(subnet, gateway);
    } else {
      var n := |ops| - 1;
      var p := PoolRun(NewPool(subnet, gateway), ops[..n]);
      PoolRunInvariant(subnet, gateway, ops[..n]);
      match ops[n]
      case AllocateOp(owner) => AllocateAbove(p, gateway, owner);
      case VIPOp(serviceID) => VIPKeepsInv(p, gateway, serviceID);
      case ReleaseOp(_) =>
    }
  }

  lemma AllocateAbove(p: Pool, gateway: IP, owner: string)
    requires p.subnet.ones >= 1 && PoolInv(p, gateway) && p.next.Num() <= Horizon(p.subnet)
    ensures match AllocateFrom(p, owner)
            case (q, Some(ip)) =>
              && q.subnet == p.subnet && PoolInv(q, gateway) && q.next.Num() == ip.Num() + 1 && p.next.Num() <= ip.Num()
              && (forall a | p.next.Num() <= a < ip.Num() :: a in p.used && InVIPWindow(p.subnet, a))
              && (ip == p.next || ip.Num() <= p.subnet.Last() - 15)
            case (_, None) => false
  {
    InNetwork(p.subnet);
    ScanUp(p, gateway, p.next, 256);
    assert p.reserved[0] == gateway;
    var ip := Scan(p, p.next, 256).value;
    if ip != p.next {
      assert InVIPWindow(p.subnet, ip.Num() - 1);
    }
  }

  /** So over every run the wraparound never happens: AllocateIP never reports exhaustion, passes
      over nothing but VIPs above its cursor, and leaves the subnet exactly when the cursor has.
      No pool that a run reaches is exhausted, however many of its addresses are used. */
  lemma NeverExhausted(subnet: Subnet, gateway: IP, ops: seq<PoolOp>, owner: string)
    requires subnet.ones >= 1 && gateway.Bytes16? && HasHosts(NewPool(subnet, gateway))
    requires subnet.Last() + |ops| < Horizon(subnet)
    ensures var p := PoolRun(NewPool(subnet, gateway), ops);
            match AllocateFrom(p, owner).1
            case Some(ip) =>
              && gateway.Num() < p.next.Num() <= ip.Num()
              && (forall a | p.next.Num() <= a < ip.Num() :: a in p.used && InVIPWindow(subnet, a))
              && (Contains(subnet, ip) <==> Contains(subnet, p.next))
            case None => false
  {
    PoolRunInvariant(subnet, gateway, ops);
    AllocateAbove(PoolRun(NewPool(subnet, gateway), ops), gateway, owner);
  }

  /** And the addresses it hands out only ever go up: none is handed out twice, released or
      not. */
  lemma AddressesGoUp(subnet: Subnet, gateway: IP, ops: seq<PoolOp>, owner: string, more: seq<PoolOp>, owner': string)
    requires subnet.ones >= 1 && gateway.Bytes16? && HasHosts(NewPool(subnet, gateway))
    requires subnet.Last() + |ops| + 1 + |more| < Horizon(subnet)
    ensures var p := PoolRun(NewPool(subnet, gateway), ops);
            var q := PoolRun(NewPool(subnet, gateway), ops + [AllocateOp(owner)] + more);
            && AllocateFrom(p, owner).1.Some? && AllocateFrom(q, owner').1.Some?
            && AllocateFrom(p, owner).1.value.Num() < AllocateFrom(q, owner').1.value.Num()
  {
    var first := ops + [AllocateOp(owner)];
    assert first[..|ops|] == ops;
    PoolRunInvariant(subnet, gateway, ops);
    AllocateAbove(PoolRun(NewPool(subnet, gateway), ops), gateway, owner);
    assert (first + more)[..|first|] == first;
    CursorRises(subnet, gateway, first + more, |first|);
    NeverExhausted(subnet, gateway, first + more, owner');
  }

  lemma {:induction false} CursorRises(subnet: Subnet, gateway: IP, ops: seq<PoolOp>, k: nat)
    requires subnet.ones >= 1 && gateway.Bytes16? && HasHosts(NewPool(subnet, gateway))
    requires subnet.Last() + |ops| <= Horizon(subnet) && k <= |ops|
    ensures PoolRun(NewPool(subnet, gateway), ops[..k]).next.Num() <= PoolRun(NewPool(subnet, gateway), ops).next.Num()
  {
    if k == |ops| {
      assert ops[..k] == ops;
    } else {
      var front, last := ops[..|ops| - 1], ops[|ops| - 1];
      assert front[..k] == ops[..k];
      CursorRises(subnet, gateway, front, k);
      PoolRunInvariant(subnet, gateway, front);
      CursorNotBack(PoolRun(NewPool(subnet, gateway), front), gateway, last);
    }
  }

  lemma CursorNotBack(p: Pool, gateway: IP, op: PoolOp)
    requires p.subnet.ones >= 1 && PoolInv(p, gateway) && p.next.Num() <= Horizon(p.subnet)
    ensures p.next.Num() <= PoolStep(p, op).next.Num()
  {
    if op.AllocateOp? {
      AllocateAbove(p, gateway, op.owner);
    }
  }

  function Allocations(owners: seq<string>): seq<PoolOp> {
    seq(|owners|, i requires 0 <= i < |owners| => AllocateOp(owners[i]))
  }

  /** Allocations alone hand out the addresses after the gateway one by one, and go on beyond
      the last address of the subnet. */
  lemma {:induction false} AllocationsInOrder(subnet: Subnet, gateway: IP, owners: seq<string>, owner: string)
    requires subnet.ones >= 1 && gateway.Bytes16? && HasHosts(NewPool(subnet, gateway))
    requires subnet.Last() + |owners| < Horizon(subnet)
    ensures var p := PoolRun(NewPool(subnet, gateway), Allocations(owners));
            && (forall a | a in p.used :: a < p.next.Num())
            && AllocateFrom(p, owner).1 == Some(p.next) && p.next.Num() == gateway.Num() + 1 + |owners|
            && (Contains(subnet, p.next) <==> gateway.Num() + 1 + |owners| <= subnet.Last())
    decreases |owners|
  {
    var p := PoolRun(NewPool(subnet, gateway), Allocations(owners));
    InNetwork(subnet);
    PoolRunInvariant(subnet, gateway, Allocations(owners));
    if |owners| > 0 {
      var n := |owners| - 1;
      assert Allocations(owners)[..n] == Allocations(owners[..n]);
      AllocationsInOrder(subnet, gateway, owners[..n], owners[n]);
    }
    assert !Taken(p, p.next.Num());
  }

  /** In a subnet of four addresses the fourth allocation gets the address after the last. */
  lemma FourthAllocationLeaves(subnet: Subnet, owner: string)
    requires subnet.HostBits() == 2
    ensures var p := PoolRun(NewPool(subnet, Bytes16(subnet.Base())), Allocations([owner, owner, owner]));
            match AllocateFrom(p, owner).1
            case Some(ip) => ip.Num() == subnet.Last() + 1 && !Contains(subnet, ip)
            case None => false
  {
    InNetwork(subnet);
    assert Pow2(2) == 4;
    AllocationsInOrder(subnet, Bytes16(subnet.Base()), [owner, owner, owner], owner);
  }
}

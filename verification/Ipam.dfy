/** The address pools of pkg/cni/ipam.go: a ledger of used addresses, a reserved list and a
    moving cursor, allocated by a bounded wraparound scan, and VIPs by a downward scan.
 */
module Ipam {
  import opened Addresses
  import opened Options
  import opened Subnets

  /** The contents of an IPPool. The ledger is keyed by the address number, which stands for
      the printed address. */
  datatype Pool = Pool(subnet: Subnet, gateway: IP, used: map<nat, string>, reserved: seq<IP>, next: IP)

  type Pools = map<Cidr, Pool>

  datatype IpamError = PoolNotFound | InvalidSubnet | Exhausted | NotAllocated

  datatype Result<+T> = Ok(value: T) | Err(error: IpamError)

  /** The scan must step over this address: it is used or reserved. */
  predicate Taken(p: Pool, a: nat) {
    a in p.used || exists i | 0 <= i < |p.reserved| :: p.reserved[i].Num() == a
  }

  function NewPool(subnet: Subnet, gateway: IP): Pool {
    Pool(subnet, gateway, map[], [gateway], Next(gateway))
  }

  /** The candidate after ip: its successor, or the address after the gateway once the
      successor has left the subnet. */
  function Advance(p: Pool, ip: IP): IP {
    if Contains(p.subnet, Next(ip)) then Next(ip) else Next(p.gateway)
  }

  /** The first free candidate from ip on, within a number of attempts. */
  function Scan(p: Pool, ip: IP, attempts: nat): Option<IP>
    decreases attempts, p
  {
    if attempts == 0 then None
    else if !Taken(p, ip.Num()) then Some(ip)
    else Scan(p, Advance(p, ip), attempts - 1)
  }

  function Grant(p: Pool, ip: IP, owner: string): Pool {
    p.(used := p.used[ip.Num() := owner])
  }

  function AllocateFrom(p: Pool, owner: string): (Pool, Option<IP>) {
    match Scan(p, p.next, 256)
    case Some(ip) => (Grant(p, ip, owner).(next := Next(ip)), Some(ip))
    case None => (p, None)
  }

  function ScanDown(p: Pool, ip: IP, attempts: nat): Option<IP>
    decreases attempts, p
  {
    if attempts == 0 then None
    else if !Taken(p, ip.Num()) then Some(ip)
    else ScanDown(p, Prev(ip), attempts - 1)
  }

  function VIPOwner(serviceID: string): string {
    "vip:" + serviceID
  }

  function AllocateVIPFrom(p: Pool, serviceID: string): (Pool, Option<IP>) {
    match ScanDown(p, VIPRangeStart(p.subnet), 16)
    case Some(ip) => (Grant(p, ip, VIPOwner(serviceID)), Some(ip))
    case None => (p, None)
  }

  function ReleaseFrom(p: Pool, a: nat): Pool {
    p.(used := p.used - {a})
  }

  // ----- The manager's operations on all pools -----

  /** CreatePool: an existing pool is kept; otherwise a valid CIDR text gets a new pool, whose
      gateway defaults to the address after the one written. */
  function Created(ps: Pools, c: Cidr, gateway: Option<IP>): Pools {
    if c in ps || !WellFormed(c) then ps
    else
      var (subnet, ip) := ParseCIDR(c).value;
      ps[c := NewPool(subnet, if gateway.Some? then gateway.value else Next(ip))]
  }

  function Allocated(ps: Pools, c: Cidr, owner: string): (Pools, Result<IP>) {
    if c !in ps then (ps, Err(PoolNotFound))
    else match AllocateFrom(ps[c], owner)
      case (p, Some(ip)) => (ps[c := p], Ok(ip))
      case (_, None) => (ps, Err(Exhausted))
  }

  function VIPAllocated(ps: Pools, c: Cidr, serviceID: string): (Pools, Result<IP>) {
    if c !in ps then (ps, Err(PoolNotFound))
    else match AllocateVIPFrom(ps[c], serviceID)
      case (p, Some(ip)) => (ps[c := p], Ok(ip))
      case (_, None) => (ps, Err(Exhausted))
  }

  /** ReleaseIP and ReleaseVIP; an absent VIP (nil) is never in a ledger. */
  function Released(ps: Pools, c: Cidr, a: Option<nat>): (Pools, Result<()>) {
    if c !in ps then (ps, Err(PoolNotFound))
    else if a.None? || a.value !in ps[c].used then (ps, Err(NotAllocated))
    else (ps[c := ReleaseFrom(ps[c], a.value)], Ok(()))
  }

  // ----- The objects -----

  class IPPool {
    var Subnet: Subnet
    var Gateway: IP
    var UsedIPs: map<nat, string>
    var ReservedIPs: seq<IP>
    var NextIP: IP

    constructor (subnet: Subnet, gateway: IP)
      ensures State() == NewPool(subnet, gateway)
    {
      Subnet, Gateway, UsedIPs, ReservedIPs := subnet, gateway, map[], [gateway];
      new;
      NextIP := IncrementIP(gateway);
    }

    function State(): Pool
      reads this
    {
      Pool(Subnet, Gateway, UsedIPs, ReservedIPs, NextIP)
    }

    /** isReserved */
    method IsReserved(ip: IP) returns (r: bool)
      ensures r <==> exists i | 0 <= i < |ReservedIPs| :: ReservedIPs[i].Num() == ip.Num()
    {
      for i := 0 to |ReservedIPs|
        invariant forall k | 0 <= k < i :: ReservedIPs[k].Num() != ip.Num()
      {
        if ip.Num() == ReservedIPs[i].Num() {
          return true;
        }
      }
      return false;
    }

    /** The scan of AllocateIP, on the pool it has found. */
    method AllocateNext(ownerID: string) returns (r: Option<IP>)
      modifies this
      ensures (State(), r) == AllocateFrom(old(State()), ownerID)
    {
      var ip: IP := NextIP;
      var attempts := 0;
      var maxAttempts := 256;
      while attempts < maxAttempts
        invariant attempts <= maxAttempts && State() == old(State())
        invariant Scan(State(), NextIP, 256) == Scan(State(), ip, maxAttempts - attempts)
      {
        var reserved := IsReserved(ip);
        if ip.Num() !in UsedIPs && !reserved {
          UsedIPs := UsedIPs[ip.Num() := ownerID];
          NextIP := IncrementIP(ip);
          return Some(ip);
        }
        ip := IncrementIP(ip);
        attempts := attempts + 1;
        if !Contains(Subnet, ip) {
          ip := IncrementIP(Gateway);
        }
      }
      r := None;
    }

    /** The scan of AllocateVIP, on the pool it has found. */
    method AllocateHighest(serviceID: string) returns (r: Option<IP>)
      modifies `UsedIPs
      ensures (State(), r) == AllocateVIPFrom(old(State()), serviceID)
    {
      var ip: IP := GetVIPRangeStart(Subnet);
      var attempts := 0;
      var maxAttempts := 16;
      while attempts < maxAttempts
        invariant attempts <= maxAttempts && State() == old(State())
        invariant ScanDown(State(), VIPRangeStart(Subnet), 16) == ScanDown(State(), ip, maxAttempts - attempts)
      {
        var reserved := IsReserved(ip);
        if ip.Num() !in UsedIPs && !reserved {
          UsedIPs := UsedIPs[ip.Num() := VIPOwner(serviceID)];
          return Some(ip);
        }
        ip := DecrementIP(ip);
        attempts := attempts + 1;
      }
      r := None;
    }
  }

  class IPAMManager {
    var pools: map<Cidr, IPPool>

    constructor ()
      ensures Valid() && State() == map[] && pools == map[]
    {
      pools := map[];
    }

    /** No two subnets share a pool object. */
    ghost predicate Valid()
      reads this
    {
      forall c, d | c in pools && d in pools && c != d :: pools[c] != pools[d]
    }

    ghost function State(): Pools
      reads this, pools.Values
    {
      map c | c in pools :: pools[c].State()
    }

    /** Changing one pool in place changes one entry of the state. */
    twostate lemma OnePoolChanged(c: Cidr)
      requires old(Valid()) && pools == old(pools) && c in pools
      requires forall d | d in pools && d != c :: unchanged(pools[d])
      ensures State() == old(State())[c := pools[c].State()]
    {
    }

    twostate lemma OnePoolAdded(c: Cidr, new pool: IPPool)
      requires c !in old(pools) && pools == old(pools)[c := pool]
      requires forall d | d in old(pools) :: unchanged(old(pools)[d])
      ensures State() == old(State())[c := pool.State()]
    {
    }

    method CreatePool(subnetCIDR: Cidr, gatewayIP: Option<IP>) returns (r: Result<IPPool>)
      requires Valid()
      modifies this
      ensures Valid()
      ensures State() == Created(old(State()), subnetCIDR, gatewayIP)
      ensures r == if subnetCIDR in pools then Ok(pools[subnetCIDR]) else Err(InvalidSubnet)
      ensures subnetCIDR in pools <==> subnetCIDR in old(pools) || WellFormed(subnetCIDR)
      ensures forall c | c in pools :: c in old(pools) || fresh(pools[c])
      ensures forall c | c in old(pools) :: c in pools && pools[c] == old(pools[c])
    {
      if subnetCIDR in pools {
        return Ok(pools[subnetCIDR]);
      }
      var parsed := ParseCIDR(subnetCIDR);
      if parsed.None? {
        return Err(InvalidSubnet);
      }
      var gateway;
      if gatewayIP.None? {
        gateway := IncrementIP(parsed.value.1);
      } else {
        gateway := gatewayIP.value;
      }
      var pool := new IPPool(parsed.value.0, gateway);
      pools := pools[subnetCIDR := pool];
      OnePoolAdded(subnetCIDR, pool);
      r := Ok(pool);
    }

    method AllocateIP(subnetCIDR: Cidr, ownerID: string) returns (r: Result<IP>)
      requires Valid()
      modifies pools.Values
      ensures State() == Allocated(old(State()), subnetCIDR, ownerID).0
      ensures r == Allocated(old(State()), subnetCIDR, ownerID).1
    {
      if subnetCIDR !in pools {
        return Err(PoolNotFound);
      }
      var ip := pools[subnetCIDR].AllocateNext(ownerID);
      OnePoolChanged(subnetCIDR);
      r := if ip.Some? then Ok(ip.value) else Err(Exhausted);
    }

    method AllocateVIP(subnetCIDR: Cidr, serviceID: string) returns (r: Result<IP>)
      requires Valid()
      modifies pools.Values
      ensures State() == VIPAllocated(old(State()), subnetCIDR, serviceID).0
      ensures r == VIPAllocated(old(State()), subnetCIDR, serviceID).1
    {
      if subnetCIDR !in pools {
        return Err(PoolNotFound);
      }
      var ip := pools[subnetCIDR].AllocateHighest(serviceID);
      OnePoolChanged(subnetCIDR);
      r := if ip.Some? then Ok(ip.value) else Err(Exhausted);
    }

    method ReleaseIP(ip: Option<nat>, subnetCIDR: Cidr) returns (r: Result<()>)
      requires Valid()
      modifies pools.Values
      ensures State() == Released(old(State()), subnetCIDR, ip).0
      ensures r == Released(old(State()), subnetCIDR, ip).1
    {
      if subnetCIDR !in pools {
        return Err(PoolNotFound);
      }
      var pool := pools[subnetCIDR];
      if ip.None? || ip.value !in pool.UsedIPs {
        return Err(NotAllocated);
      }
      pool.UsedIPs := pool.UsedIPs - {ip.value};
      OnePoolChanged(subnetCIDR);
      r := Ok(());
    }
  }
}

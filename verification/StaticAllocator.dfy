/** The hash-placed, linear-probing address table of pkg/network/manager.go. The hash of a VM
    identifier is a parameter: the first four bytes of its SHA-256 digest, as a number.
 */
module StaticAllocator {
  import opened Addresses
  import opened Bits
  import opened Options
  import opened Subnets

  type uint32 = x: int | 0 <= x < 0x1_0000_0000

  /** What an allocator is made with. */
  datatype Plan = Plan(subnet: Subnet, gateway: IP, hash: string -> uint32)

  /** The allocated map: addresses and their VMs. */
  type Table = map<nat, string>

  /** hashToIP for an IPv4 subnet; the shift by 32 bits of an empty prefix is out of range. */
  function HashToIP(p: Plan, vm: string): (ip: IP)
    requires p.subnet.ones >= 1
    ensures ip.Bytes4? && Contains(p.subnet, ip)
    ensures p.subnet.ones <= 30 ==> p.subnet.Base() < ip.Num() < p.subnet.Last()
  {
    InNetwork(p.subnet);
    AtLeastFour(p.subnet);
    var size := p.subnet.Size();
    if size < 4 then Bytes4(p.subnet.addr + p.hash(vm) % size)
    else Bytes4(p.subnet.addr + p.hash(vm) % (size - 2) + 1)
  }

  lemma AtLeastFour(n: Subnet)
    ensures n.ones <= 30 ==> n.Size() >= 4
  {
    if n.ones <= 30 {
      assert Pow2(n.HostBits()) == 2 * Pow2(n.HostBits() - 1);
      assert Pow2(n.HostBits() - 1) == 2 * Pow2(n.HostBits() - 2);
    }
  }

  /** The gateway or an address in the table. */
  predicate Blocked(p: Plan, t: Table, a: nat) {
    a == p.gateway.Num() || a in t
  }

  /** Where probing restarts: two above the network address. */
  function Restart(p: Plan): IP {
    Next(Next(Bytes4(p.subnet.addr)))
  }

  function ProbeNext(p: Plan, ip: IP): IP {
    if Contains(p.subnet, Next(ip)) then Next(ip) else Restart(p)
  }

  function Probe(p: Plan, t: Table, ip: IP, attempts: nat): Option<IP>
    decreases attempts, ip.Num()
  {
    if attempts == 0 then None
    else if !Blocked(p, t, ip.Num()) then Some(ip)
    else Probe(p, t, ProbeNext(p, ip), attempts - 1)
  }

  /** Allocate for a VM that has no address yet. */
  function Place(p: Plan, t: Table, vm: string): (Table, Option<nat>)
    requires p.subnet.ones >= 1
  {
    match Probe(p, t, HashToIP(p, vm), 256)
    case Some(ip) => (t[ip.Num() := vm], Some(ip.Num()))
    case None => (t, None)
  }

  /** Allocate: a VM that has an address keeps it. */
  function Allocated(p: Plan, t: Table, vm: string): Table
    requires p.subnet.ones >= 1
  {
    if vm in t.Values then t else Place(p, t, vm).0
  }

  class IPAllocator {
    const plan: Plan
    var table: Table

    constructor (p: Plan)
      ensures plan == p && table == map[]
    {
      plan, table := p, map[];
    }

    /** The search for an address the VM already has. */
    method FindOwned(vmID: string) returns (r: Option<nat>)
      ensures r.Some? ==> r.value in table && table[r.value] == vmID
      ensures r.None? ==> vmID !in table.Values
    {
      var rest := table.Keys;
      while rest != {}
        invariant rest <= table.Keys
        invariant forall a | a in table.Keys - rest :: table[a] != vmID
      {
        var a :| a in rest;
        if table[a] == vmID {
          return Some(a);
        }
        rest := rest - {a};
      }
      return None;
    }

    method Allocate(vmID: string) returns (r: Option<nat>)
      requires plan.subnet.ones >= 1
      modifies this
      ensures table == Allocated(plan, old(table), vmID)
      ensures vmID in old(table).Values ==> r.Some? && r.value in table && table[r.value] == vmID
      ensures vmID !in old(table).Values ==> r == Place(plan, old(table), vmID).1
    {
      r := FindOwned(vmID);
      if r.Some? {
        assert table[r.value] in table.Values;
        return;
      }
      var ip: IP := HashToIP(plan, vmID);
      if !Contains(plan.subnet, ip) {
        return None;
      }
      for i := 0 to 256
        invariant Probe(plan, table, HashToIP(plan, vmID), 256) == Probe(plan, table, ip, 256 - i)
        invariant ip.Bytes4? && table == old(table)
      {
        var isGateway := ip.Num() == plan.gateway.Num();
        if !isGateway && ip.Num() !in table {
          table := table[ip.Num() := vmID];
          return Some(ip.Num());
        }
        ip := IncIP(ip);
        if !Contains(plan.subnet, ip) {
          ip := Bytes4(plan.subnet.addr);
          ip := IncIP(ip);
          ip := IncIP(ip);
        }
      }
      r := None;
    }

    method Release(ip: nat)
      modifies this
      ensures table == old(table) - {ip}
    {
      table := table - {ip};
    }
  }

  // ----- Where the hash puts a VM -----

  function Preferred(p: Plan, vm: string): nat
    requires p.subnet.ones >= 1
  {
    HashToIP(p, vm).Num()
  }

  /** How many addresses the hash chooses from: the host addresses, or all of a subnet that has
      only one or two. */
  function Slots(n: Subnet): (r: nat)
    ensures r > 0
  {
    AtLeastFour(n);
    if n.ones <= 30 then Pow2(32 - n.ones) - 2 else Pow2(32 - n.ones)
  }

  /** The first of them. */
  function FirstSlot(n: Subnet): nat {
    if n.ones <= 30 then n.Base() + 1 else n.Base()
  }

  lemma SlotsAre(n: Subnet)
    ensures FirstSlot(n) + Slots(n) == if n.ones <= 30 then n.Last() else n.Last() + 1
    ensures n.ones == 31 ==> Slots(n) == 2
    ensures n.ones == 32 ==> Slots(n) == 1
  {
    AtLeastFour(n);
    Powers2();
  }

  lemma Powers2()
    ensures Pow2(0) == 1 && Pow2(1) == 2
  {
  }

  /** Each address that the hash chooses from is preferred exactly by the VMs whose hash is
      congruent to its position; no other address is preferred. */
  lemma PreferredIff(p: Plan, vm: string, a: nat)
    requires p.subnet.ones >= 1
    ensures Preferred(p, vm) == a <==>
            && FirstSlot(p.subnet) <= a < FirstSlot(p.subnet) + Slots(p.subnet)
            && p.hash(vm) % Slots(p.subnet) == a - FirstSlot(p.subnet)
  {
    SlotsAre(p.subnet);
    AtLeastFour(p.subnet);
    Powers2();
  }

  /** Two VMs prefer the same address exactly when their hashes agree modulo the number of
      addresses to choose from: the size of the subnet less two for prefixes up to /30. */
  lemma SamePreferenceIff(p: Plan, v: string, w: string)
    requires p.subnet.ones >= 1
    ensures Preferred(p, v) == Preferred(p, w) <==> p.hash(v) % Slots(p.subnet) == p.hash(w) % Slots(p.subnet)
  {
    PreferredIff(p, v, Preferred(p, v));
    PreferredIff(p, w, Preferred(p, w));
  }

  // ----- Probing is sound and complete -----

  /** Prefixes /1 to /30. */
  predicate Ordinary(n: Subnet) {
    1 <= n.ones <= 30
  }

  lemma RestartInside(p: Plan)
    requires Ordinary(p.subnet)
    ensures Contains(p.subnet, Restart(p)) && Restart(p).Num() == p.subnet.Base() + 2 && Restart(p).Bytes4?
  {
    InNetwork(p.subnet);
    AtLeastFour(p.subnet);
  }

  lemma ProbeStep(p: Plan, ip: IP)
    requires Ordinary(p.subnet) && ip.Bytes4? && Contains(p.subnet, ip)
    ensures ProbeNext(p, ip).Bytes4? && Contains(p.subnet, ProbeNext(p, ip))
    ensures ProbeNext(p, ip).Num() == if ip.Num() < p.subnet.Last() then ip.Num() + 1 else p.subnet.Base() + 2
  {
    InNetwork(p.subnet);
    RestartInside(p);
    HalfSpace(p.subnet);
  }

  lemma HalfSpace(n: Subnet)
    requires n.ones >= 1
    ensures n.Size() <= 0x8000_0000
  {
    Pow2Mono(n.HostBits(), 31);
    Powers();
    assert Pow2(32) == 2 * Pow2(31);
  }

  lemma {:induction false} ProbeSound(p: Plan, t: Table, ip: IP, attempts: nat)
    requires Ordinary(p.subnet) && ip.Bytes4? && Contains(p.subnet, ip)
    ensures match Probe(p, t, ip, attempts)
            case Some(r) =>
              && Contains(p.subnet, r) && !Blocked(p, t, r.Num())
              && (r.Num() >= ip.Num() || r.Num() >= p.subnet.Base() + 2)
            case None => true
    decreases attempts
  {
    if attempts > 0 && Blocked(p, t, ip.Num()) {
      ProbeStep(p, ip);
      ProbeSound(p, t, ProbeNext(p, ip), attempts - 1);
    }
  }

  /** Where n attempts from an address lead: up to the last address, and with the attempts that
      are left upward from two above the base. */
  predicate Probed(n: Subnet, from: nat, attempts: nat, a: nat) {
    || (from <= a <= n.Last() && a < from + attempts)
    || (n.Base() + 2 <= a <= n.Last() && a < n.Base() + 2 + attempts - (n.Last() - from + 1))
  }

  lemma {:induction false} ProbeFailsIff(p: Plan, t: Table, ip: IP, attempts: nat)
    requires Ordinary(p.subnet) && ip.Bytes4? && Contains(p.subnet, ip)
    ensures Probe(p, t, ip, attempts).None? <==> forall a | Probed(p.subnet, ip.Num(), attempts, a) :: Blocked(p, t, a)
    decreases attempts
  {
    if attempts > 0 {
      var next := ProbeNext(p, ip);
      ProbeStep(p, ip);
      AtLeastFour(p.subnet);
      ProbeFailsIff(p, t, next, attempts - 1);
      forall a
        ensures Probed(p.subnet, ip.Num(), attempts, a) <==>
                a == ip.Num() || Probed(p.subnet, next.Num(), attempts - 1, a)
      {
      }
    }
  }

  /** Every address between, in the order of the probing, is taken or the gateway. */
  predicate PassesOnlyBlocked(p: Plan, t: Table, from: nat, a: nat) {
    || (from <= a && forall b | from <= b < a :: b == p.gateway.Num() || b in t)
    || ((forall b | from <= b <= p.subnet.Last() :: b == p.gateway.Num() || b in t)
        && forall b | p.subnet.Base() + 2 <= b < a :: b == p.gateway.Num() || b in t)
  }

  lemma {:induction false} ProbeIsFirst(p: Plan, t: Table, ip: IP, attempts: nat)
    requires Ordinary(p.subnet) && ip.Bytes4? && Contains(p.subnet, ip)
    ensures match Probe(p, t, ip, attempts)
            case Some(r) => PassesOnlyBlocked(p, t, ip.Num(), r.Num())
            case None => true
    decreases attempts
  {
    if attempts > 0 && Blocked(p, t, ip.Num()) {
      ProbeStep(p, ip);
      ProbeIsFirst(p, t, ProbeNext(p, ip), attempts - 1);
    }
  }

  /** A VM without an address gets the address it prefers when that is neither taken nor the
      gateway, and otherwise the next such one upward, going on two above the base after the
      last. */
  lemma PlaceIsFirst(p: Plan, t: Table, vm: string)
    requires Ordinary(p.subnet)
    ensures var from := Preferred(p, vm);
            match Place(p, t, vm).1
            case Some(a) => PassesOnlyBlocked(p, t, from, a)
                            && (from !in t && from != p.gateway.Num() ==> a == from)
            case None => from in t || from == p.gateway.Num()
  {
    ProbeIsFirst(p, t, HashToIP(p, vm), 256);
  }

  /** The address given to a VM without one was free, lies in the subnet above its base, and
      is not the gateway; nothing else changes. */
  lemma PlaceSound(p: Plan, t: Table, vm: string)
    requires Ordinary(p.subnet)
    ensures match Place(p, t, vm)
            case (u, Some(a)) =>
              && a !in t && a != p.gateway.Num() && p.subnet.Base() < a <= p.subnet.Last()
              && u == t[a := vm]
            case (u, None) => u == t
  {
    ProbeSound(p, t, HashToIP(p, vm), 256);
  }

  /** For every size of subnet, Allocate fails exactly when each of the addresses that 256
      attempts from the preferred one reach is taken or the gateway. */
  lemma PlaceFailsIff(p: Plan, t: Table, vm: string)
    requires Ordinary(p.subnet)
    ensures Place(p, t, vm).1.None? <==>
            forall a | Probed(p.subnet, Preferred(p, vm), 256, a) :: a == p.gateway.Num() || a in t
  {
    ProbeFailsIff(p, t, HashToIP(p, vm), 256);
    assert forall a: nat | Probed(p.subnet, Preferred(p, vm), 256, a) ::
             Blocked(p, t, a) <==> a == p.gateway.Num() || a in t;
  }

  /** With at most 256 addresses those are the preferred address and every address from two above
      the base to the last. */
  lemma SmallPlaceFailsIff(p: Plan, t: Table, vm: string)
    requires Ordinary(p.subnet) && p.subnet.HostBits() <= 8
    ensures Place(p, t, vm).1.None? <==>
            Blocked(p, t, Preferred(p, vm)) &&
            forall a | p.subnet.Base() + 2 <= a <= p.subnet.Last() :: Blocked(p, t, a)
  {
    ProbeFailsIff(p, t, HashToIP(p, vm), 256);
    Pow2Mono(p.subnet.HostBits(), 8);
    Powers();
    var from := Preferred(p, vm);
    forall a: nat
      ensures Probed(p.subnet, from, 256, a) <==> a == from || p.subnet.Base() + 2 <= a <= p.subnet.Last()
    {
    }
  }

  // ----- Runs -----

  datatype Op = AllocateOp(vm: string) | ReleaseOp(a: nat)

  function Step(p: Plan, t: Table, op: Op): Table
    requires p.subnet.ones >= 1
  {
    match op
    case AllocateOp(vm) => Allocated(p, t, vm)
    case ReleaseOp(a) => t - {a}
  }

  function Run(p: Plan, ops: seq<Op>): Table
    requires p.subnet.ones >= 1
  {
    if |ops| == 0 then map[] else Step(p, Run(p, ops[..|ops| - 1]), ops[|ops| - 1])
  }

  /** One address per VM. */
  predicate OneAddressEach(t: Table) {
    forall a, b | a in t && b in t && t[a] == t[b] :: a == b
  }

  /** Over every run of allocations and releases each VM has at most one address, and every
      address in the table is a host address of the subnet other than the gateway. */
  lemma {:induction false} RunInvariant(p: Plan, ops: seq<Op>)
    requires Ordinary(p.subnet)
    ensures OneAddressEach(Run(p, ops))
    ensures forall a | a in Run(p, ops) :: p.subnet.Base() < a <= p.subnet.Last() && a != p.gateway.Num()
  {
    if |ops| > 0 {
      var t := Run(p, ops[..|ops| - 1]);
      RunInvariant(p, ops[..|ops| - 1]);
      match ops[|ops| - 1]
      case AllocateOp(vm) =>
        PlaceSound(p, t, vm);
        assert forall a | a in t :: t[a] in t.Values;
      case ReleaseOp(_) =>
    }
  }

  // ----- Independence of the order -----

  /** The hashes of the VMs differ modulo the number of addresses to choose from, and none
      chooses the gateway. */
  ghost predicate Spread(p: Plan, vms: set<string>)
    requires p.subnet.ones >= 1
  {
    && (forall v, w | v in vms && w in vms && v != w :: p.hash(v) % Slots(p.subnet) != p.hash(w) % Slots(p.subnet))
    && forall v | v in vms :: FirstSlot(p.subnet) + p.hash(v) % Slots(p.subnet) != p.gateway.Num()
  }

  /** No two of the VMs prefer the same address, and none prefers the gateway. */
  ghost predicate Apart(p: Plan, vms: set<string>)
    requires p.subnet.ones >= 1
  {
    && (forall v, w | v in vms && w in vms && v != w :: Preferred(p, v) != Preferred(p, w))
    && forall v | v in vms :: Preferred(p, v) != p.gateway.Num()
  }

  lemma SpreadIff(p: Plan, vms: set<string>)
    requires p.subnet.ones >= 1
    ensures Spread(p, vms) <==> Apart(p, vms)
  {
    SlotsAre(p.subnet);
    forall v, w
      ensures Preferred(p, v) == Preferred(p, w) <==> p.hash(v) % Slots(p.subnet) == p.hash(w) % Slots(p.subnet)
      ensures Preferred(p, v) == FirstSlot(p.subnet) + p.hash(v) % Slots(p.subnet)
    {
      SamePreferenceIff(p, v, w);
      PreferredIff(p, v, Preferred(p, v));
    }
  }

  /** Every VM at its preferred address, and nothing else. */
  ghost predicate AllPreferred(p: Plan, vms: set<string>, t: Table)
    requires p.subnet.ones >= 1
  {
    && (forall v | v in vms :: Preferred(p, v) in t && t[Preferred(p, v)] == v)
    && forall a | a in t :: t[a] in vms && Preferred(p, t[a]) == a
  }

  function AllocateAll(p: Plan, vms: seq<string>): Table
    requires p.subnet.ones >= 1
  {
    if |vms| == 0 then map[] else Allocated(p, AllocateAll(p, vms[..|vms| - 1]), vms[|vms| - 1])
  }

  function Elements(vms: seq<string>): set<string> {
    set v | v in vms
  }

  /** VMs whose hashes are spread each end at their preferred address, in any order and with
      repetitions. */
  lemma SpreadPlacement(p: Plan, vms: seq<string>)
    requires p.subnet.ones >= 1 && Spread(p, Elements(vms))
    ensures AllPreferred(p, Elements(vms), AllocateAll(p, vms))
  {
    SpreadIff(p, Elements(vms));
    DistinctPlacement(p, vms);
  }

  lemma {:induction false} DistinctPlacement(p: Plan, vms: seq<string>)
    requires p.subnet.ones >= 1 && Apart(p, Elements(vms))
    ensures AllPreferred(p, Elements(vms), AllocateAll(p, vms))
  {
    if |vms| > 0 {
      var front, last := vms[..|vms| - 1], vms[|vms| - 1];
      assert vms == front + [last];
      assert Elements(vms) == Elements(front) + {last};
      DistinctPlacement(p, front);
      var t := AllocateAll(p, front);
      if last in t.Values {
        assert last in Elements(front);
      } else {
        assert Preferred(p, last) !in t by {
          assert forall a | a in t :: t[a] in t.Values;
        }
        assert Probe(p, t, HashToIP(p, last), 256) == Some(HashToIP(p, last));
      }
    }
  }

  /** VMs with distinct preferred addresses, none of them the gateway, end with the same table
      in every allocation order, repetitions included. */
  lemma OrderIndependence(p: Plan, vms: seq<string>, vms': seq<string>)
    requires p.subnet.ones >= 1 && Spread(p, Elements(vms)) && Elements(vms) == Elements(vms')
    ensures AllocateAll(p, vms) == AllocateAll(p, vms')
  {
    SpreadPlacement(p, vms);
    SpreadPlacement(p, vms');
    var t, t' := AllocateAll(p, vms), AllocateAll(p, vms');
    forall a
      ensures a in t <==> a in t'
      ensures a in t ==> t[a] == t'[a]
    {
      if a in t {
        assert Preferred(p, t[a]) == a;
      }
      if a in t' {
        assert Preferred(p, t'[a]) == a;
      }
    }
  }

  /** For two VMs that do not prefer the gateway, the order matters exactly when they prefer
      the same address. */
  lemma OrderMattersIff(p: Plan, v: string, w: string)
    requires p.subnet.ones >= 1 && v != w
    requires Preferred(p, v) != p.gateway.Num() && Preferred(p, w) != p.gateway.Num()
    ensures AllocateAll(p, [v, w]) == AllocateAll(p, [w, v]) <==> Preferred(p, v) != Preferred(p, w)
  {
    if Preferred(p, v) != Preferred(p, w) {
      assert Elements([v, w]) == {v, w} == Elements([w, v]);
      SpreadIff(p, {v, w});
      OrderIndependence(p, [v, w], [w, v]);
    } else {
      FirstComerKeeps(p, v, w);
      FirstComerKeeps(p, w, v);
    }
  }

  lemma FirstComerKeeps(p: Plan, v: string, w: string)
    requires p.subnet.ones >= 1 && v != w && Preferred(p, v) != p.gateway.Num()
    ensures Preferred(p, v) in AllocateAll(p, [v, w]) && AllocateAll(p, [v, w])[Preferred(p, v)] == v
  {
    assert [v, w][..1] == [v] && [v][..0] == [];
    assert AllocateAll(p, []) == map[];
    var t := AllocateAll(p, [v]);
    assert Probe(p, map[], HashToIP(p, v), 256) == Some(HashToIP(p, v));
    assert t == map[Preferred(p, v) := v];
    FreeOnly(p, t, HashToIP(p, w), 256);
  }

  lemma {:induction false} FreeOnly(p: Plan, t: Table, ip: IP, attempts: nat)
    ensures var r := Probe(p, t, ip, attempts); r.Some? ==> r.value.Num() !in t
    decreases attempts
  {
    if attempts > 0 && Blocked(p, t, ip.Num()) {
      FreeOnly(p, t, ProbeNext(p, ip), attempts - 1);
    }
  }
}

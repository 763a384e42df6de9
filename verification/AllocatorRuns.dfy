/** The ledger invariant of the network allocator over every run of its operations. */
module AllocatorRuns {
  import opened Bits
  import opened Addresses
  import opened Options
  import opened Subnets
  import opened Ipam
  import opened PoolTheorems
  import opened AllocatorModel
  import opened Runs

  /** The allocator together with the tasks whose attachments it fills in. */
  datatype System = System(s: State, tasks: map<string, seq<TaskNet>>)

  /** Something that holds an address: a service on a network, a node on a network, or one
      attachment of a task. */
  datatype Slot =
    | ServiceSlot(network: string, sid: string)
    | NodeSlot(network: string, nid: string)
    | TaskSlot(tid: string, i: nat)

  /** The network and address a slot holds. */
  function Held(y: System, slot: Slot): Option<(string, nat)> {
    match slot
    case ServiceSlot(n, sid) =>
      if n in y.s.nets && sid in y.s.nets[n].services && y.s.nets[n].services[sid].vip.Some?
      then Some((n, y.s.nets[n].services[sid].vip.value.Num())) else None
    case NodeSlot(n, nid) =>
      if n in y.s.nets && nid in y.s.nets[n].attachments
      then Some((n, y.s.nets[n].attachments[nid].ipAddress.Num())) else None
    case TaskSlot(tid, i) =>
      if tid in y.tasks && i < |y.tasks[tid]| then HeldBy(y.tasks[tid][i]) else None
  }

  function HeldBy(att: TaskNet): Option<(string, nat)> {
    if |att.addresses| > 0 && att.addresses[0].Text? then Some((att.network, att.addresses[0].num)) else None
  }

  function OwnerOf(slot: Slot): string {
    match slot
    case ServiceSlot(_, sid) => VIPOwner(sid)
    case NodeSlot(_, nid) => nid
    case TaskSlot(tid, _) => tid
  }

  /** Every network has its own live pool. */
  predicate LiveNets(s: State) {
    && (forall id | id in s.nets :: KeyOf(s, id) in s.pools)
    && (forall id, id' | id in s.nets && id' in s.nets && id != id' :: KeyOf(s, id) != KeyOf(s, id'))
  }

  /** The ledger of a network's pool. */
  function UsedOn(s: State, id: string): map<nat, string>
    requires LiveNets(s) && id in s.nets
  {
    s.pools[KeyOf(s, id)].used
  }

  /** Each held address is in the ledger of its live network under its holder's own name. */
  ghost predicate Owned(y: System)
    requires LiveNets(y.s)
  {
    forall slot: Slot | Held(y, slot).Some? ::
      var (id, a) := Held(y, slot).value;
      id in y.s.nets && a in UsedOn(y.s, id) && UsedOn(y.s, id)[a] == OwnerOf(slot)
  }

  /** No two holders on a network share an address. */
  ghost predicate Unshared(y: System) {
    forall slot: Slot, slot': Slot | slot != slot' && Held(y, slot).Some? :: Held(y, slot) != Held(y, slot')
  }

  ghost predicate Ledger(y: System) {
    LiveNets(y.s) && Owned(y) && Unshared(y)
  }

  /** Every generated text is valid, and its network is found again under its printed form. */
  ghost predicate Sound(gen: Generator) {
    forall i: nat :: var g := gen(i); g.Some? && WellFormed(g.value) && ParseCIDR(g.value).value.0.Text() == g.value
  }

  /** The generator tells indices apart exactly by their residue. */
  ghost predicate Cyclic(gen: Generator, space: nat) {
    space > 0 && forall i: nat, j: nat :: gen(i) == gen(j) <==> i % space == j % space
  }

  /** The prefix covers the generated bytes and the pool address has no host bits. */
  predicate GoodConfig(cfg: Config) {
    && WellFormed(cfg.subnetPool) && 0 <= cfg.subnetSize <= 32
    && 0 <= OffsetByte(cfg.subnetPool, cfg.subnetSize) <= 3
    && cfg.subnetSize >= 8 * (OffsetByte(cfg.subnetPool, cfg.subnetSize) + 1)
    && Aligned(cfg.subnetPool.addr, 32 - cfg.subnetSize)
  }

  /** A configuration is good exactly when, with d bits left of 32 by the two prefixes, d is
      from -7 to 31, the new prefix covers byte d / 8, and the pool address has no bits below the
      new prefix. */
  lemma GoodConfigIff(cfg: Config)
    ensures var d := 32 - cfg.subnetPool.ones - cfg.subnetSize;
            GoodConfig(cfg) <==>
              && cfg.subnetPool.addr < V4_SIZE && 0 <= cfg.subnetPool.ones <= 32 && 0 <= cfg.subnetSize <= 32
              && -8 < d < 32 && cfg.subnetSize >= 8 * (if d < 0 then 1 else d / 8 + 1)
              && Aligned(cfg.subnetPool.addr, 32 - cfg.subnetSize)
  {
  }

  /** The generator of a good configuration is sound, and repeats after its index space. */
  lemma GoodConfigGenerates(cfg: Config)
    requires GoodConfig(cfg)
    ensures Sound(GeneratorOf(cfg)) && Cyclic(GeneratorOf(cfg), IndexSpace(cfg.subnetPool, cfg.subnetSize))
  {
    forall i: nat
      ensures var g := GeneratorOf(cfg)(i);
              g.Some? && WellFormed(g.value) && ParseCIDR(g.value).value.0.Text() == g.value
    {
      Limits();
      GeneratedAligned(cfg.subnetPool, cfg.subnetSize, i);
    }
    GoodConfigCycles(cfg);
  }

  lemma GoodConfigCycles(cfg: Config)
    requires GoodConfig(cfg)
    ensures Cyclic(GeneratorOf(cfg), IndexSpace(cfg.subnetPool, cfg.subnetSize))
  {
    forall i: nat, j: nat
      ensures GeneratorOf(cfg)(i) == GeneratorOf(cfg)(j)
         <==> i % IndexSpace(cfg.subnetPool, cfg.subnetSize) == j % IndexSpace(cfg.subnetPool, cfg.subnetSize)
    {
      SameSubnetIff(cfg.subnetPool, cfg.subnetSize, i, j);
    }
  }

  /** The default pool 10.0.0.0/8 with subnets of prefix length 24 has 256 indices. */
  lemma DefaultConfigGood()
    ensures GoodConfig(Config(Cidr(0x0a00_0000, 8), 24)) && IndexSpace(Cidr(0x0a00_0000, 8), 24) == 256
  {
  }

  // ----- How one update moves the ledger -----

  predicate SameDirectory(s: State, t: State) {
    s.nets.Keys == t.nets.Keys && forall id | id in s.nets :: s.nets[id].subnet == t.nets[id].subnet
  }

  /** One pool changed, and at most one slot. */
  ghost predicate OneChange(y: System, z: System, id: string, slot: Slot) {
    && LiveNets(y.s) && id in y.s.nets && SameDirectory(y.s, z.s)
    && KeyOf(y.s, id) in z.s.pools
    && z.s.pools == y.s.pools[KeyOf(y.s, id) := z.s.pools[KeyOf(y.s, id)]]
    && forall other: Slot | other != slot :: Held(z, other) == Held(y, other)
  }

  lemma OnePoolUsed(y: System, z: System, id: string, slot: Slot)
    requires OneChange(y, z, id, slot)
    ensures LiveNets(z.s)
    ensures forall n | n in y.s.nets && n != id :: UsedOn(z.s, n) == UsedOn(y.s, n)
  {
  }

  lemma GrantKeepsLedger(y: System, z: System, id: string, slot: Slot, a: nat)
    requires Ledger(y) && OneChange(y, z, id, slot)
    requires a !in UsedOn(y.s, id) && LiveNets(z.s) && UsedOn(z.s, id) == UsedOn(y.s, id)[a := OwnerOf(slot)]
    requires Held(z, slot) == Some((id, a))
    ensures Ledger(z)
  {
    OnePoolUsed(y, z, id, slot);
    forall other: Slot | other != slot
      ensures Held(z, other) != Some((id, a))
    {
      assert Held(z, other) == Held(y, other);
    }
    UnsharedKept(y, z, slot);
  }

  lemma UnsharedKept(y: System, z: System, slot: Slot)
    requires Unshared(y)
    requires forall other: Slot | other != slot :: Held(z, other) == Held(y, other)
    requires Held(z, slot).Some? ==> forall other: Slot | other != slot :: Held(z, other) != Held(z, slot)
    ensures Unshared(z)
  {
  }

  lemma FreeKeepsLedger(y: System, z: System, id: string, slot: Slot, a: nat)
    requires Ledger(y) && OneChange(y, z, id, slot)
    requires Held(y, slot) == Some((id, a)) && LiveNets(z.s) && UsedOn(z.s, id) == UsedOn(y.s, id) - {a}
    requires Held(z, slot) == None
    ensures Ledger(z)
  {
    OnePoolUsed(y, z, id, slot);
    forall other: Slot | other != slot
      ensures Held(z, other) != Some((id, a))
    {
      assert Held(z, other) == Held(y, other);
    }
    UnsharedKept(y, z, slot);
  }

  lemma DropKeepsLedger(y: System, z: System, slot: Slot)
    requires Ledger(y) && z.s.pools == y.s.pools && SameDirectory(y.s, z.s)
    requires Held(z, slot) == None || Held(z, slot) == Held(y, slot)
    requires forall other: Slot | other != slot :: Held(z, other) == Held(y, other)
    ensures Ledger(z)
  {
    assert forall n | n in y.s.nets :: KeyOf(z.s, n) == KeyOf(y.s, n);
    forall other: Slot | Held(z, other).Some?
      ensures Held(z, other) == Held(y, other)
    {
    }
  }

  // ----- How one update moves the holders -----

  lemma HeldAfterService(y: System, z: System, id: string, sid: string)
    requires id in y.s.nets && z.tasks == y.tasks && z.s.nets.Keys == y.s.nets.Keys
    requires forall n | n in y.s.nets && n != id :: z.s.nets[n] == y.s.nets[n]
    requires z.s.nets[id].attachments == y.s.nets[id].attachments
    requires z.s.nets[id].services - {sid} == y.s.nets[id].services - {sid}
    ensures forall other: Slot | other != ServiceSlot(id, sid) :: Held(z, other) == Held(y, other)
  {
    forall other: Slot | other != ServiceSlot(id, sid)
      ensures Held(z, other) == Held(y, other)
    {
      if other.ServiceSlot? && other.network == id {
        var t := other.sid;
        assert t in z.s.nets[id].services - {sid} <==> t in z.s.nets[id].services;
        assert t in y.s.nets[id].services - {sid} <==> t in y.s.nets[id].services;
        if t in z.s.nets[id].services {
          assert (z.s.nets[id].services - {sid})[t] == (y.s.nets[id].services - {sid})[t];
        }
      }
    }
  }

  lemma HeldAfterNode(y: System, z: System, id: string, nid: string)
    requires id in y.s.nets && z.tasks == y.tasks && z.s.nets.Keys == y.s.nets.Keys
    requires forall n | n in y.s.nets && n != id :: z.s.nets[n] == y.s.nets[n]
    requires z.s.nets[id].services == y.s.nets[id].services
    requires z.s.nets[id].attachments - {nid} == y.s.nets[id].attachments - {nid}
    ensures forall other: Slot | other != NodeSlot(id, nid) :: Held(z, other) == Held(y, other)
  {
    forall other: Slot | other != NodeSlot(id, nid)
      ensures Held(z, other) == Held(y, other)
    {
      if other.NodeSlot? && other.network == id {
        var t := other.nid;
        assert t in z.s.nets[id].attachments - {nid} <==> t in z.s.nets[id].attachments;
        assert t in y.s.nets[id].attachments - {nid} <==> t in y.s.nets[id].attachments;
        if t in z.s.nets[id].attachments {
          assert (z.s.nets[id].attachments - {nid})[t] == (y.s.nets[id].attachments - {nid})[t];
        }
      }
    }
  }

  lemma HeldAfterTask(y: System, z: System, tid: string, i: nat, att: TaskNet)
    requires tid in y.tasks && i < |y.tasks[tid]| && z.s.nets == y.s.nets
    requires z.tasks == y.tasks[tid := y.tasks[tid][i := att]]
    ensures Held(z, TaskSlot(tid, i)) == HeldBy(att)
    ensures forall other: Slot | other != TaskSlot(tid, i) :: Held(z, other) == Held(y, other)
  {
  }

  lemma VIPGranted(s: State, id: string, sid: string)
    requires LiveNets(s) && id in s.nets
    ensures match VIPAllocated(s.pools, KeyOf(s, id), sid)
            case (ps, Ok(vip)) =>
              && vip.Num() !in UsedOn(s, id)
              && ps == s.pools[KeyOf(s, id) := Grant(s.pools[KeyOf(s, id)], vip, VIPOwner(sid))]
            case (ps, Err(_)) => ps == s.pools
  {
    ScanDownFree(s.pools[KeyOf(s, id)], VIPRangeStart(s.pools[KeyOf(s, id)].subnet), 16);
  }

  lemma IPGranted(s: State, id: string, owner: string)
    requires LiveNets(s) && id in s.nets
    ensures match Allocated(s.pools, KeyOf(s, id), owner)
            case (ps, Ok(ip)) =>
              && ip.Num() !in UsedOn(s, id)
              && ps == s.pools[KeyOf(s, id) := Grant(s.pools[KeyOf(s, id)], ip, owner).(next := Next(ip))]
            case (ps, Err(_)) => ps == s.pools
  {
    ScanFree(s.pools[KeyOf(s, id)], s.pools[KeyOf(s, id)].next, 256);
  }

  // ----- Services -----

  lemma ServiceRoundKeeps(y: System, sid: string, target: string)
    requires Ledger(y)
    ensures Ledger(y.(s := ServiceRound(y.s, sid, target).0))
  {
    if target in y.s.nets {
      VIPGranted(y.s, target, sid);
      match VIPAllocated(y.s.pools, KeyOf(y.s, target), sid)
      case (ps, Ok(vip)) =>
        var z := y.(s := ServiceRound(y.s, sid, target).0);
        HeldAfterService(y, z, target, sid);
        GrantKeepsLedger(y, z, target, ServiceSlot(target, sid), vip.Num());
      case (_, Err(_)) =>
    }
  }

  lemma {:induction false} ServiceRoundsKeep(y: System, sid: string, targets: seq<string>)
    requires Ledger(y)
    ensures Ledger(y.(s := ServiceRounds(y.s, sid, targets).0))
    decreases |targets|
  {
    if |targets| > 0 {
      ServiceRoundKeeps(y, sid, targets[0]);
      if ServiceRound(y.s, sid, targets[0]).1 {
        ServiceRoundsKeep(y.(s := ServiceRound(y.s, sid, targets[0]).0), sid, targets[1..]);
      }
    }
  }

  /** Recording a service without a VIP, as the ingress path does, drops at most a holder. */
  lemma NilServiceKeeps(y: System, id: string, sid: string)
    requires Ledger(y) && id in y.s.nets
    ensures Ledger(y.(s := SetService(y.s, id, sid, None)))
  {
    var z := y.(s := SetService(y.s, id, sid, None));
    HeldAfterService(y, z, id, sid);
    DropKeepsLedger(y, z, ServiceSlot(id, sid));
  }

  lemma NoServiceKeeps(y: System, id: string, sid: string)
    requires Ledger(y) && id in y.s.nets
    ensures Ledger(y.(s := DropService(y.s, id, sid)))
  {
    var z := y.(s := DropService(y.s, id, sid));
    HeldAfterService(y, z, id, sid);
    DropKeepsLedger(y, z, ServiceSlot(id, sid));
  }

  lemma UnserviceRoundKeeps(y: System, sid: string, target: string)
    requires Ledger(y)
    ensures Ledger(y.(s := UnserviceRound(y.s, sid, target)))
  {
    if target in y.s.nets && sid in y.s.nets[target].services {
      var vip := y.s.nets[target].services[sid].vip;
      var slot, z := ServiceSlot(target, sid), y.(s := UnserviceRound(y.s, sid, target));
      HeldAfterService(y, z, target, sid);
      if vip.Some? {
        assert Held(y, slot) == Some((target, vip.value.Num()));
        FreeKeepsLedger(y, z, target, slot, vip.value.Num());
      } else {
        DropKeepsLedger(y, z, slot);
      }
    }
  }

  lemma {:induction false} UnserviceRoundsKeep(y: System, sid: string, targets: seq<string>)
    requires Ledger(y)
    ensures Ledger(y.(s := UnserviceRounds(y.s, sid, targets)))
    decreases |targets|
  {
    if |targets| > 0 {
      UnserviceRoundKeeps(y, sid, targets[0]);
      UnserviceRoundsKeep(y.(s := UnserviceRound(y.s, sid, targets[0])), sid, targets[1..]);
    }
  }

  lemma AllocateServiceKeeps(y: System, sid: string, targets: seq<string>, publishes: bool,
                             pick: Option<string>)
    requires Ledger(y) && FirstIngress(y.s, pick)
    ensures Ledger(y.(s := AllocateService(y.s, sid, targets, publishes, pick).0))
  {
    var (s1, ok) := ServiceRounds(y.s, sid, targets);
    ServiceRoundsKeep(y, sid, targets);
    RoundsKeepNets(y.s, sid, targets);
    if ok && publishes && pick.Some? {
      NilServiceKeeps(y.(s := s1), pick.value, sid);
    }
  }

  lemma DeallocateServiceKeeps(y: System, sid: string, targets: seq<string>, pick: Option<string>)
    requires Ledger(y) && FirstIngress(y.s, pick)
    ensures Ledger(y.(s := DeallocateService(y.s, sid, targets, pick)))
  {
    var s1 := UnserviceRounds(y.s, sid, targets);
    UnserviceRoundsKeep(y, sid, targets);
    UnserviceKeepsNets(y.s, sid, targets);
    if pick.Some? {
      NoServiceKeeps(y.(s := s1), pick.value, sid);
    }
  }

  // ----- Tasks -----

  lemma TaskRoundKeeps(y: System, tid: string, i: nat)
    requires Ledger(y) && tid in y.tasks && i < |y.tasks[tid]|
    ensures var (s1, att, _) := TaskRound(y.s, tid, y.tasks[tid][i]);
            Ledger(System(s1, y.tasks[tid := y.tasks[tid][i := att]]))
  {
    var att, slot := y.tasks[tid][i], TaskSlot(tid, i);
    var (s1, att1, ok) := TaskRound(y.s, tid, att);
    var z := System(s1, y.tasks[tid := y.tasks[tid][i := att1]]);
    HeldAfterTask(y, z, tid, i, att1);
    if ok {
      IPGranted(y.s, att.network, tid);
      GrantKeepsLedger(y, z, att.network, slot, att1.addresses[0].num);
    } else {
      if att.network in y.s.nets {
        IPGranted(y.s, att.network, tid);
      }
      DropKeepsLedger(y, z, slot);
    }
  }

  lemma {:induction false} AllocateTaskKeeps(y: System, tid: string, i: nat)
    requires Ledger(y) && tid in y.tasks && i <= |y.tasks[tid]|
    ensures var (s1, atts, _) := AllocateTask(y.s, tid, y.tasks[tid], i);
            Ledger(System(s1, y.tasks[tid := atts]))
    decreases |y.tasks[tid]| - i
  {
    if i < |y.tasks[tid]| {
      TaskRoundKeeps(y, tid, i);
      var (s1, att, ok) := TaskRound(y.s, tid, y.tasks[tid][i]);
      var z := System(s1, y.tasks[tid := y.tasks[tid][i := att]]);
      if ok {
        AllocateTaskKeeps(z, tid, i + 1);
        assert z.tasks[tid := AllocateTask(z.s, tid, z.tasks[tid], i + 1).1]
            == y.tasks[tid := AllocateTask(z.s, tid, z.tasks[tid], i + 1).1];
      }
    }
    assert y.tasks[tid := y.tasks[tid]] == y.tasks;
  }

  lemma UntaskRoundKeeps(y: System, tid: string, i: nat)
    requires Ledger(y) && tid in y.tasks && i < |y.tasks[tid]|
    ensures var (s1, att) := UntaskRound(y.s, y.tasks[tid][i]);
            Ledger(System(s1, y.tasks[tid := y.tasks[tid][i := att]]))
  {
    var att, slot := y.tasks[tid][i], TaskSlot(tid, i);
    var (s1, att1) := UntaskRound(y.s, att);
    var z := System(s1, y.tasks[tid := y.tasks[tid][i := att1]]);
    HeldAfterTask(y, z, tid, i, att1);
    if att1 != att {
      assert Held(y, slot) == Some((att.network, att.addresses[0].num));
      FreeKeepsLedger(y, z, att.network, slot, att.addresses[0].num);
    } else {
      DropKeepsLedger(y, z, slot);
    }
  }

  lemma {:induction false} DeallocateTaskKeeps(y: System, tid: string, i: nat)
    requires Ledger(y) && tid in y.tasks && i <= |y.tasks[tid]|
    ensures var (s1, atts) := DeallocateTask(y.s, y.tasks[tid], i);
            Ledger(System(s1, y.tasks[tid := atts]))
    decreases |y.tasks[tid]| - i
  {
    assert y.tasks[tid := y.tasks[tid]] == y.tasks;
    if i < |y.tasks[tid]| {
      UntaskRoundKeeps(y, tid, i);
      var (s1, att) := UntaskRound(y.s, y.tasks[tid][i]);
      var z := System(s1, y.tasks[tid := y.tasks[tid][i := att]]);
      DeallocateTaskKeeps(z, tid, i + 1);
      var atts := DeallocateTask(z.s, z.tasks[tid], i + 1).1;
      assert z.tasks[tid := atts] == y.tasks[tid := atts];
    }
  }

  // ----- Node attachments -----

  lemma AttachmentKeeps(y: System, nid: string, att: TaskNet)
    requires Ledger(y)
    ensures Ledger(y.(s := AllocateAttachment(y.s, nid, att).0))
  {
    if att.network in y.s.nets {
      IPGranted(y.s, att.network, nid);
      match Allocated(y.s.pools, KeyOf(y.s, att.network), nid)
      case (ps, Ok(ip)) =>
        var z := y.(s := AllocateAttachment(y.s, nid, att).0);
        HeldAfterNode(y, z, att.network, nid);
        GrantKeepsLedger(y, z, att.network, NodeSlot(att.network, nid), ip.Num());
      case (_, Err(_)) =>
    }
  }

  lemma DetachmentKeeps(y: System, nid: string, att: TaskNet)
    requires Ledger(y)
    ensures Ledger(y.(s := DeallocateAttachment(y.s, nid, att).0))
  {
    if att.network in y.s.nets && nid in y.s.nets[att.network].attachments {
      var a := y.s.nets[att.network].attachments[nid].ipAddress.Num();
      var slot, z := NodeSlot(att.network, nid), y.(s := DeallocateAttachment(y.s, nid, att).0);
      assert Held(y, slot) == Some((att.network, a));
      HeldAfterNode(y, z, att.network, nid);
      FreeKeepsLedger(y, z, att.network, slot, a);
    }
  }

  // ----- Networks -----

  /** The subnet text that the next call of AllocateNetwork generates. */
  function NextKey(gen: Generator, s: State): Option<Cidr> {
    gen((s.index + 1) % V4_SIZE)
  }

  predicate NoneOn(s: State, key: Option<Cidr>) {
    forall id | id in s.nets :: key != Some(KeyOf(s, id))
  }

  /** No network is on the subnet that comes next. */
  predicate NextIsFree(gen: Generator, s: State) {
    NoneOn(s, NextKey(gen, s))
  }

  /** Allocate reaches the provider and records a network. */
  predicate MakesNet(s: State, id: string, driver: string, written: bool) {
    id !in s.nets && DriverSupported(driver) && written
  }

  /** What Allocate does to the state when it reaches the provider. */
  lemma NetAdded(gen: Generator, s: State, id: string, driver: string, ingress: bool, written: bool)
    requires Sound(gen) && id !in s.nets && DriverSupported(driver)
    ensures var t := AllocateNet(gen, s, id, driver, ingress, written).0;
            && NextKey(gen, s).Some? && NextKey(gen, s).value in t.pools
            && t.pools == s.pools[NextKey(gen, s).value := t.pools[NextKey(gen, s).value]]
            && (forall c | c in s.pools :: t.pools[c] == s.pools[c])
            && t.index == (s.index + 1) % V4_SIZE
            && t.nets.Keys == (if written then s.nets.Keys + {id} else s.nets.Keys)
            && (forall n | n in s.nets :: t.nets[n] == s.nets[n])
            && (written ==> t.nets[id].services == map[] && t.nets[id].attachments == map[]
                            && KeyOf(t, id) == NextKey(gen, s).value)
  {
    assert Sound(gen);
    assert gen((s.index + 1) % V4_SIZE).Some?;
  }

  /** A new network keeps the ledger exactly when no network is on its subnet already. */
  lemma AllocateNetKeepsIff(gen: Generator, y: System, id: string, driver: string, ingress: bool, written: bool)
    requires Sound(gen) && Ledger(y)
    ensures Ledger(y.(s := AllocateNet(gen, y.s, id, driver, ingress, written).0)) <==>
            (MakesNet(y.s, id, driver, written) ==> NextIsFree(gen, y.s))
  {
    var z := y.(s := AllocateNet(gen, y.s, id, driver, ingress, written).0);
    if id !in y.s.nets && DriverSupported(driver) {
      NetAdded(gen, y.s, id, driver, ingress, written);
      if written && !NextIsFree(gen, y.s) {
        var n :| n in y.s.nets && NextKey(gen, y.s) == Some(KeyOf(y.s, n));
        assert KeyOf(z.s, n) == KeyOf(z.s, id);
      } else {
        LiveNetsGrow(gen, y.s, z.s, id);
        HoldersOfNewNet(y, z, id);
        SameLedgersKeep(y, z);
      }
    } else if id in y.s.nets {
      assert z.s == y.s;
    } else {
      assert z.s == y.s;
    }
  }

  lemma LiveNetsGrow(gen: Generator, s: State, t: State, id: string)
    requires LiveNets(s) && id !in s.nets
    requires forall c | c in s.pools :: c in t.pools && t.pools[c] == s.pools[c]
    requires forall n | n in s.nets :: n in t.nets && t.nets[n] == s.nets[n]
    requires t.nets.Keys == s.nets.Keys ||
             (t.nets.Keys == s.nets.Keys + {id} && KeyOf(t, id) in t.pools
              && forall n | n in s.nets :: KeyOf(s, n) != KeyOf(t, id))
    ensures LiveNets(t)
    ensures forall n | n in s.nets && n in t.nets :: UsedOn(t, n) == UsedOn(s, n)
  {
  }

  /** Fewer holders on the same ledgers. */
  lemma SameLedgersKeep(y: System, z: System)
    requires Ledger(y) && LiveNets(z.s)
    requires forall slot: Slot | Held(z, slot).Some? ::
               Held(z, slot) == Held(y, slot) && Held(z, slot).value.0 in z.s.nets
    requires forall n | n in y.s.nets && n in z.s.nets :: UsedOn(z.s, n) == UsedOn(y.s, n)
    ensures Ledger(z)
  {
  }

  lemma HoldersOfNewNet(y: System, z: System, id: string)
    requires Ledger(y) && z.tasks == y.tasks && z.s.nets.Keys <= y.s.nets.Keys + {id}
    requires forall n | n in y.s.nets :: n in z.s.nets && z.s.nets[n] == y.s.nets[n]
    requires id !in y.s.nets && id in z.s.nets ==> z.s.nets[id].services == map[] && z.s.nets[id].attachments == map[]
    ensures forall slot: Slot | Held(z, slot).Some? ::
              Held(z, slot) == Held(y, slot) && Held(z, slot).value.0 in z.s.nets
  {
  }

  /** No task holds an address on the network. */
  ghost predicate NoTaskOn(y: System, id: string) {
    forall tid: string, i: nat | Held(y, TaskSlot(tid, i)).Some? :: Held(y, TaskSlot(tid, i)).value.0 != id
  }

  /** Taking a network down keeps the ledger exactly when no task holds an address on it. */
  lemma DeallocateNetKeepsIff(y: System, id: string)
    requires Ledger(y)
    ensures Ledger(y.(s := DeallocateNet(y.s, id))) <==> NoTaskOn(y, id)
  {
    var z := y.(s := DeallocateNet(y.s, id));
    if !NoTaskOn(y, id) {
      var tid: string, i: nat :| Held(y, TaskSlot(tid, i)).Some? && Held(y, TaskSlot(tid, i)).value.0 == id;
      assert Held(z, TaskSlot(tid, i)) == Held(y, TaskSlot(tid, i)) && id !in z.s.nets;
    } else if id in y.s.nets {
      HoldersOfLostNet(y, z, id);
      PoolsOfOtherNets(y.s, id);
      SameLedgersKeep(y, z);
    }
  }

  lemma PoolsOfOtherNets(s: State, id: string)
    requires LiveNets(s) && id in s.nets
    ensures LiveNets(DeallocateNet(s, id))
    ensures forall n | n in DeallocateNet(s, id).nets :: UsedOn(DeallocateNet(s, id), n) == UsedOn(s, n)
  {
  }

  lemma HoldersOfLostNet(y: System, z: System, id: string)
    requires Ledger(y) && z.tasks == y.tasks && id in y.s.nets && z.s.nets == y.s.nets - {id} && NoTaskOn(y, id)
    ensures forall slot: Slot | Held(z, slot).Some? ::
              Held(z, slot) == Held(y, slot) && Held(z, slot).value.0 in z.s.nets
  {
  }

  // ----- Runs -----

  datatype Op =
    | NewTask(tid: string, networks: seq<string>)
    | NetUp(id: string, driver: string, ingress: bool, written: bool)
    | NetDown(id: string)
    | ServiceUp(sid: string, targets: seq<string>, publishes: bool, pick: Option<string>)
    | ServiceDown(sid: string, targets: seq<string>, pick: Option<string>)
    | TaskUp(tid: string)
    | TaskDown(tid: string)
    | NodeUp(nid: string, att: TaskNet)
    | NodeDown(nid: string, att: TaskNet)

  /** The calls that can be made: on known tasks, with the ingress network a walk may meet. */
  predicate Possible(y: System, op: Op) {
    match op
    case NewTask(tid, _) => tid !in y.tasks
    case ServiceUp(_, _, _, pick) => FirstIngress(y.s, pick)
    case ServiceDown(_, _, pick) => FirstIngress(y.s, pick)
    case TaskUp(tid) => tid in y.tasks
    case TaskDown(tid) => tid in y.tasks
    case _ => true
  }

  /** What callers owe: the next subnet is free when a network is made, and a network goes down
      only when no task holds an address on it. */
  ghost predicate Owed(gen: Generator, y: System, op: Op) {
    match op
    case NetUp(id, driver, _, written) => MakesNet(y.s, id, driver, written) ==> NextIsFree(gen, y.s)
    case NetDown(id) => NoTaskOn(y, id)
    case _ => true
  }

  ghost function Step(gen: Generator, y: System, op: Op): System
    requires Possible(y, op)
  {
    match op
    case NewTask(tid, networks) =>
      y.(tasks := y.tasks[tid := seq(|networks|, i requires 0 <= i < |networks| => TaskNet(networks[i], []))])
    case NetUp(id, driver, ingress, written) =>
      y.(s := AllocateNet(gen, y.s, id, driver, ingress, written).0)
    case NetDown(id) => y.(s := DeallocateNet(y.s, id))
    case ServiceUp(sid, targets, publishes, pick) =>
      y.(s := AllocateService(y.s, sid, targets, publishes, pick).0)
    case ServiceDown(sid, targets, pick) => y.(s := DeallocateService(y.s, sid, targets, pick))
    case TaskUp(tid) =>
      var (s1, atts, _) := AllocateTask(y.s, tid, y.tasks[tid], 0);
      System(s1, y.tasks[tid := atts])
    case TaskDown(tid) =>
      var (s1, atts) := DeallocateTask(y.s, y.tasks[tid], 0);
      System(s1, y.tasks[tid := atts])
    case NodeUp(nid, att) => y.(s := AllocateAttachment(y.s, nid, att).0)
    case NodeDown(nid, att) => y.(s := DeallocateAttachment(y.s, nid, att).0)
  }

  lemma NewTaskKeeps(y: System, tid: string, atts: seq<TaskNet>)
    requires Ledger(y) && tid !in y.tasks && forall i | 0 <= i < |atts| :: atts[i].addresses == []
    ensures Ledger(y.(tasks := y.tasks[tid := atts]))
  {
    var z := y.(tasks := y.tasks[tid := atts]);
    forall slot: Slot
      ensures Held(z, slot) == Held(y, slot)
    {
    }
  }

  /** Every operation keeps the ledger exactly when its caller does what is owed. */
  lemma StepKeepsLedgerIff(gen: Generator, y: System, op: Op)
    requires Sound(gen) && Ledger(y) && Possible(y, op)
    ensures Ledger(Step(gen, y, op)) <==> Owed(gen, y, op)
  {
    match op
    case NetUp(id, driver, ingress, written) => AllocateNetKeepsIff(gen, y, id, driver, ingress, written);
    case NetDown(id) => DeallocateNetKeepsIff(y, id);
    case _ => HolderStepKeepsLedger(gen, y, op);
  }

  lemma HolderStepKeepsLedger(gen: Generator, y: System, op: Op)
    requires Ledger(y) && Possible(y, op) && !op.NetUp? && !op.NetDown?
    ensures Ledger(Step(gen, y, op))
  {
    match op {
      case NewTask(tid, networks) => NewTaskKeeps(y, tid, Step(gen, y, op).tasks[tid]);
      case ServiceUp(sid, targets, publishes, pick) => AllocateServiceKeeps(y, sid, targets, publishes, pick);
      case ServiceDown(sid, targets, pick) => DeallocateServiceKeeps(y, sid, targets, pick);
      case TaskUp(tid) => AllocateTaskKeeps(y, tid, 0);
      case TaskDown(tid) => DeallocateTaskKeeps(y, tid, 0);
      case NodeUp(nid, att) => AttachmentKeeps(y, nid, att);
      case NodeDown(nid, att) => DetachmentKeeps(y, nid, att);
    }
  }

  const EMPTY := System(State(0, map[], map[]), map[])

  /** The systems a run passes through, starting from an empty allocator. */
  ghost predicate IsRun(gen: Generator, ops: seq<Op>, trace: seq<System>) {
    && |trace| == |ops| + 1 && trace[0] == EMPTY
    && forall i | 0 <= i < |ops| :: Possible(trace[i], ops[i]) && trace[i + 1] == Step(gen, trace[i], ops[i])
  }

  /** Over every run, of any length and with any number of networks, ledger and holders agree
      up to moment n exactly when callers did what they owed in every step before it. */
  lemma RunsKeepLedgerIff(gen: Generator, ops: seq<Op>, trace: seq<System>, n: nat)
    requires Sound(gen) && IsRun(gen, ops, trace) && n < |trace|
    ensures (forall k | 0 <= k <= n :: Ledger(trace[k])) <==> (forall k | 0 <= k < n :: Owed(gen, trace[k], ops[k]))
  {
    var good := seq(n + 1, k requires 0 <= k <= n => Ledger(trace[k]));
    var owed := seq(n, k requires 0 <= k < n => Owed(gen, trace[k], ops[k]));
    EmptyLedger();
    forall k | 0 <= k < n && good[k]
      ensures good[k + 1] <==> owed[k]
    {
      StepKeepsLedgerIff(gen, trace[k], ops[k]);
    }
    FirstFailure(good, owed);
    assert forall k | 0 <= k <= n :: good[k] == Ledger(trace[k]);
    assert forall k | 0 <= k < n :: owed[k] == Owed(gen, trace[k], ops[k]);
  }

  lemma EmptyLedger()
    ensures Ledger(EMPTY)
  {
    assert forall slot: Slot :: Held(EMPTY, slot) == None;
  }

  // ----- When the next subnet is free -----

  /** The index each live network was made with, along a run. */
  function MadeAt(ops: seq<Op>, trace: seq<System>, n: nat): map<string, nat>
    requires |trace| == |ops| + 1 && n < |trace|
  {
    if n == 0 then map[] else MadeNext(MadeAt(ops, trace, n - 1), trace[n - 1], ops[n - 1])
  }

  function MadeNext(made: map<string, nat>, y: System, op: Op): map<string, nat> {
    match op
    case NetUp(id, driver, _, written) =>
      if MakesNet(y.s, id, driver, written) then made[id := (y.s.index + 1) % V4_SIZE] else made
    case NetDown(id) => made - {id}
    case _ => made
  }

  /** The indices that generated the subnets of the networks. */
  predicate MadeWith(gen: Generator, s: State, made: map<string, nat>) {
    made.Keys == s.nets.Keys && forall id | id in s.nets :: gen(made[id]) == Some(KeyOf(s, id))
  }

  lemma MadeOne(gen: Generator, s: State, t: State, made: map<string, nat>, id: string, i: nat)
    requires MadeWith(gen, s, made) && t.nets.Keys == s.nets.Keys + {id} && id !in s.nets
    requires (forall n | n in s.nets :: t.nets[n] == s.nets[n]) && gen(i) == Some(KeyOf(t, id))
    ensures MadeWith(gen, t, made[id := i])
  {
  }

  lemma MadeSame(gen: Generator, s: State, t: State, made: map<string, nat>)
    requires MadeWith(gen, s, made) && SameDirectory(s, t)
    ensures MadeWith(gen, t, made)
  {
  }

  lemma MadeStep(gen: Generator, y: System, op: Op, made: map<string, nat>)
    requires Sound(gen) && Possible(y, op) && MadeWith(gen, y.s, made)
    ensures MadeWith(gen, Step(gen, y, op).s, MadeNext(made, y, op))
  {
    if op.NetUp? {
      MadeNet(gen, y.s, op.id, op.driver, op.ingress, op.written, made);
    } else if op.NetDown? {
      MadeLess(gen, y.s, op.id, made);
    } else {
      MadeHolders(gen, y, op, made);
    }
  }

  lemma MadeHolders(gen: Generator, y: System, op: Op, made: map<string, nat>)
    requires Possible(y, op) && !op.NetUp? && !op.NetDown? && MadeWith(gen, y.s, made)
    ensures MadeWith(gen, Step(gen, y, op).s, made)
  {
    HolderStepKeepsDirectory(gen, y, op);
    MadeSame(gen, y.s, Step(gen, y, op).s, made);
  }

  lemma MadeLess(gen: Generator, s: State, id: string, made: map<string, nat>)
    requires MadeWith(gen, s, made)
    ensures MadeWith(gen, DeallocateNet(s, id), made - {id})
  {
  }

  lemma MadeNet(gen: Generator, s: State, id: string, driver: string, ingress: bool, written: bool, made: map<string, nat>)
    requires Sound(gen) && MadeWith(gen, s, made)
    ensures MadeWith(gen, AllocateNet(gen, s, id, driver, ingress, written).0,
                     if MakesNet(s, id, driver, written) then made[id := (s.index + 1) % V4_SIZE] else made)
  {
    if id !in s.nets && DriverSupported(driver) {
      NetAdded(gen, s, id, driver, ingress, written);
      if written {
        MadeOne(gen, s, AllocateNet(gen, s, id, driver, ingress, written).0, made, id,
                (s.index + 1) % V4_SIZE);
      } else {
        MadeSame(gen, s, AllocateNet(gen, s, id, driver, ingress, written).0, made);
      }
    }
  }

  lemma {:induction false} MadeAtIs(gen: Generator, ops: seq<Op>, trace: seq<System>, n: nat)
    requires Sound(gen) && IsRun(gen, ops, trace) && n < |trace|
    ensures MadeWith(gen, trace[n].s, MadeAt(ops, trace, n))
  {
    if n > 0 {
      MadeAtIs(gen, ops, trace, n - 1);
      MadeStep(gen, trace[n - 1], ops[n - 1], MadeAt(ops, trace, n - 1));
    }
  }

  /** In every run a next network gets a subnet of its own exactly when its index differs from
      that of every live network, modulo the index space. */
  lemma NextIsFreeIff(gen: Generator, space: nat, ops: seq<Op>, trace: seq<System>, n: nat)
    requires Sound(gen) && Cyclic(gen, space) && IsRun(gen, ops, trace) && n < |trace|
    ensures MadeAt(ops, trace, n).Keys == trace[n].s.nets.Keys
    ensures NextIsFree(gen, trace[n].s) <==>
            forall id | id in MadeAt(ops, trace, n) ::
              MadeAt(ops, trace, n)[id] % space != (trace[n].s.index + 1) % V4_SIZE % space
  {
    MadeAtIs(gen, ops, trace, n);
    FreeByIndex(gen, space, trace[n].s, MadeAt(ops, trace, n), (trace[n].s.index + 1) % V4_SIZE);
  }

  lemma FreeByIndex(gen: Generator, space: nat, s: State, made: map<string, nat>, next: nat)
    requires Cyclic(gen, space) && MadeWith(gen, s, made)
    ensures NoneOn(s, gen(next)) <==> forall id | id in made :: made[id] % space != next % space
  {
    forall id | id in made
      ensures (gen(next) == Some(KeyOf(s, id))) <==> (made[id] % space == next % space)
    {
      assert gen(made[id]) == Some(KeyOf(s, id));
    }
  }

  /** Operations that are not about networks leave the directory alone. */
  lemma HolderStepKeepsDirectory(gen: Generator, y: System, op: Op)
    requires Possible(y, op) && !op.NetUp? && !op.NetDown?
    ensures SameDirectory(y.s, Step(gen, y, op).s)
  {
    match op {
      case ServiceUp(sid, targets, _, _) => RoundsKeepNets(y.s, sid, targets);
      case ServiceDown(sid, targets, _) => UnserviceKeepsNets(y.s, sid, targets);
      case TaskUp(tid) => AllocateTaskKeepsNets(y.s, tid, y.tasks[tid], 0);
      case TaskDown(tid) => DeallocateTaskKeepsNets(y.s, y.tasks[tid], 0);
      case _ =>
    }
  }

  lemma {:induction false} AllocateTaskKeepsNets(s: State, tid: string, atts: seq<TaskNet>, i: nat)
    requires i <= |atts|
    ensures AllocateTask(s, tid, atts, i).0.nets == s.nets
    decreases |atts| - i
  {
    if i < |atts| {
      var (s1, att, ok) := TaskRound(s, tid, atts[i]);
      if ok {
        AllocateTaskKeepsNets(s1, tid, atts[i := att], i + 1);
      }
    }
  }

  lemma {:induction false} DeallocateTaskKeepsNets(s: State, atts: seq<TaskNet>, i: nat)
    requires i <= |atts|
    ensures DeallocateTask(s, atts, i).0.nets == s.nets
    decreases |atts| - i
  {
    if i < |atts| {
      var (s1, att) := UntaskRound(s, atts[i]);
      DeallocateTaskKeepsNets(s1, atts[i := att], i + 1);
    }
  }

  // ----- One network too many -----

  /** As many network identifiers as needed. */
  function Name(k: nat): (r: string)
    ensures |r| == k
  {
    seq(k, _ => 'n')
  }

  function Making(k: nat): Op {
    NetUp(Name(k), "bridge", false, true)
  }

  /** Network k is made in step k. */
  function Grown(gen: Generator, n: nat): System {
    if n == 0 then EMPTY
    else
      var y := Grown(gen, n - 1);
      y.(s := AllocateNet(gen, y.s, Name(n), "bridge", false, true).0)
  }

  /** Networks 1 to n have the first n subnets. */
  predicate Filled(gen: Generator, s: State, n: nat) {
    && s.index == n
    && (forall id | id in s.nets :: 1 <= |id| <= n && id == Name(|id|))
    && (forall k | 1 <= k <= n :: Name(k) in s.nets && gen(k) == Some(KeyOf(s, Name(k))))
  }

  /** The generator tells the first indices apart and then starts again. */
  ghost predicate FirstLap(gen: Generator, space: nat) {
    && space > 0 && gen(space + 1) == gen(1)
    && forall i: nat, j: nat | 1 <= i < j <= space :: gen(i) != gen(j)
  }

  lemma FirstLapOf(gen: Generator, space: nat)
    requires Cyclic(gen, space)
    ensures FirstLap(gen, space)
  {
    OneLap(space);
  }

  lemma OneLap(space: nat)
    requires space > 0
    ensures (space + 1) % space == 1 % space
    ensures forall i: nat, j: nat | 1 <= i < j <= space :: i % space != j % space
  {
    assert (space + 1) % space == 1 % space;
    assert forall i: nat | i < space :: i % space == i;
  }

  lemma FilledNextFree(gen: Generator, space: nat, s: State, n: nat)
    requires FirstLap(gen, space) && Filled(gen, s, n) && n <= space
    ensures NoneOn(s, gen(n + 1)) <==> n < space
  {
    if n < space {
      forall id | id in s.nets
        ensures gen(n + 1) != Some(KeyOf(s, id))
      {
        assert id == Name(|id|) && gen(|id|) != gen(n + 1);
      }
    } else {
      assert gen(n + 1) == Some(KeyOf(s, Name(1)));
    }
  }

  lemma FilledOneMore(gen: Generator, s: State, t: State, n: nat)
    requires Filled(gen, s, n) && t.index == n + 1 && t.nets.Keys == s.nets.Keys + {Name(n + 1)}
    requires (forall id | id in s.nets :: t.nets[id] == s.nets[id]) && gen(n + 1) == Some(KeyOf(t, Name(n + 1)))
    ensures Filled(gen, t, n + 1)
  {
    forall k | 1 <= k <= n + 1
      ensures Name(k) in t.nets && gen(k) == Some(KeyOf(t, Name(k)))
    {
      assert k <= n ==> Name(k) in s.nets;
    }
  }

  lemma FillOne(gen: Generator, s: State, n: nat)
    requires Sound(gen) && Filled(gen, s, n) && n + 1 < V4_SIZE
    ensures Filled(gen, AllocateNet(gen, s, Name(n + 1), "bridge", false, true).0, n + 1)
    ensures NextKey(gen, s) == gen(n + 1) && MakesNet(s, Name(n + 1), "bridge", true)
  {
    NetAdded(gen, s, Name(n + 1), "bridge", false, true);
    FilledOneMore(gen, s, AllocateNet(gen, s, Name(n + 1), "bridge", false, true).0, n);
  }

  lemma {:induction false} GrownIs(gen: Generator, space: nat, n: nat)
    requires Sound(gen) && Cyclic(gen, space) && n <= space + 1 < V4_SIZE
    ensures Filled(gen, Grown(gen, n).s, n)
    ensures Ledger(Grown(gen, n)) <==> n <= space
  {
    if n > 0 {
      var y := Grown(gen, n - 1);
      GrownIs(gen, space, n - 1);
      FillOne(gen, y.s, n - 1);
      FirstLapOf(gen, space);
      FilledNextFree(gen, space, y.s, n - 1);
      AllocateNetKeepsIff(gen, y, Name(n), "bridge", false, true);
    } else {
      EmptyLedger();
    }
  }

  function Makings(n: nat): seq<Op> {
    seq(n, k requires 0 <= k < n => Making(k + 1))
  }

  function Growth(gen: Generator, n: nat): seq<System> {
    seq(n + 1, k requires 0 <= k <= n => Grown(gen, k))
  }

  lemma GrowthIsRun(gen: Generator, n: nat)
    ensures IsRun(gen, Makings(n), Growth(gen, n))
  {
    var ops, trace := Makings(n), Growth(gen, n);
    forall k | 0 <= k < n
      ensures Possible(trace[k], ops[k]) && trace[k + 1] == Step(gen, trace[k], ops[k])
    {
      assert trace[k] == Grown(gen, k) && ops[k] == Making(k + 1) && trace[k + 1] == Grown(gen, k + 1);
    }
  }

  /** Making one network more than there are indices is a run that breaks the ledger in its last
      step and no earlier: the last network gets the pool of the first. */
  lemma OneNetworkTooMany(gen: Generator, space: nat)
    requires Sound(gen) && Cyclic(gen, space) && space + 1 < V4_SIZE
    ensures var n := space + 1;
            && IsRun(gen, Makings(n), Growth(gen, n))
            && (forall k | 0 <= k <= n :: Ledger(Growth(gen, n)[k]) <==> k < n)
            && Name(1) in Growth(gen, n)[n].s.nets && Name(n) in Growth(gen, n)[n].s.nets
            && KeyOf(Growth(gen, n)[n].s, Name(1)) == KeyOf(Growth(gen, n)[n].s, Name(n))
  {
    var n := space + 1;
    GrowthIsRun(gen, n);
    forall k | 0 <= k <= n
      ensures Ledger(Growth(gen, n)[k]) <==> k < n
    {
      GrownIs(gen, space, k);
    }
    GrownIs(gen, space, n);
    FirstLapOf(gen, space);
  }

  /** The 257th network of the default configuration gets the pool of the first. */
  lemma DefaultConfigOverflows()
    ensures var gen := GeneratorOf(Config(Cidr(0x0a00_0000, 8), 24));
            && IsRun(gen, Makings(257), Growth(gen, 257))
            && Ledger(Growth(gen, 257)[256]) && !Ledger(Growth(gen, 257)[257])
  {
    var cfg := Config(Cidr(0x0a00_0000, 8), 24);
    DefaultConfigGood();
    GoodConfigGenerates(cfg);
    OneNetworkTooMany(GeneratorOf(cfg), 256);
  }

  /** Two networks on one pool: taking one down removes the pool from under the other. */
  lemma SharedPoolLost(s: State, id: string, other: string)
    requires id in s.nets && other in s.nets && id != other && KeyOf(s, id) == KeyOf(s, other)
    ensures other in DeallocateNet(s, id).nets
    ensures KeyOf(DeallocateNet(s, id), other) !in DeallocateNet(s, id).pools
  {
  }
}

/** What the operations of the network allocator leave behind and when they fail, and that over
    every run nobody holds the gateway of a network.
 */
module AllocatorResults {
  import opened Addresses
  import opened Options
  import opened Subnets
  import opened Ipam
  import opened PoolTheorems
  import opened ManagerTheorems
  import opened AllocatorModel
  import opened AllocatorRuns

  // ----- Networks -----

  /** Allocate, on its result, for any generator. A network that is known stays as it is and an
      unknown driver changes nothing. Otherwise the index is consumed; on valid text the pool
      exists afterwards; and when the files are written the network has the generated subnet, the
      address written as its gateway, the ingress flag asked for, and no records. */
  lemma AllocateNetResult(gen: Generator, s: State, id: string, driver: string, ingress: bool, written: bool)
    ensures var (t, ok) := AllocateNet(gen, s, id, driver, ingress, written);
            var key := gen((s.index + 1) % V4_SIZE);
            if id in s.nets then ok && t == s
            else if !(driver == "bridge" || driver == "vxlan" || driver == "") then !ok && t == s
            else
              && t.index == (s.index + 1) % V4_SIZE
              && (ok <==> written && key.Some? && ParseCIDR(key.value).Some?)
              && (key.None? || ParseCIDR(key.value).None? ==> t.pools == s.pools)
              && (!ok ==> t.nets == s.nets)
              && (key.Some? && ParseCIDR(key.value).Some? ==>
                    t.pools == Created(s.pools, key.value, Some(Bytes16(V4_MAPPED + key.value.addr))))
              && (ok ==> t.nets == s.nets[id := Net(id, ParseCIDR(key.value).value.0,
                                                    Bytes16(V4_MAPPED + key.value.addr), ingress, map[], map[])])
  {
  }

  /** Deallocate removes the network and its pool and nothing else. */
  lemma DeallocateNetResult(s: State, id: string)
    ensures var t := DeallocateNet(s, id);
            && t.index == s.index && t.nets == s.nets - {id}
            && (forall c | c in t.pools :: c in s.pools && t.pools[c] == s.pools[c])
            && (forall c | c in s.pools && c !in t.pools :: id in s.nets && c == KeyOf(s, id))
            && (id in s.nets ==> KeyOf(s, id) !in t.pools)
  {
    if id !in s.nets {
      assert s.nets - {id} == s.nets;
    }
  }

  // ----- Services -----

  /** The record of a service on a network, written by its rounds. */
  predicate HasVIP(s: State, sid: string, id: string) {
    && id in s.nets && sid in s.nets[id].services
    && s.nets[id].services[sid].serviceID == sid && s.nets[id].services[sid].networkID == s.nets[id].id
    && s.nets[id].services[sid].vip.Some?
  }

  lemma ServiceRoundRecords(s: State, sid: string, target: string)
    ensures var (t, ok) := ServiceRound(s, sid, target);
            && (ok <==> target in s.nets && VIPAllocated(s.pools, KeyOf(s, target), sid).1.Ok?)
            && (!ok ==> t == s)
            && (ok ==> HasVIP(t, sid, target)
                       && t.nets[target].services[sid].vip.value == VIPAllocated(s.pools, KeyOf(s, target), sid).1.value
                       && t.pools == VIPAllocated(s.pools, KeyOf(s, target), sid).0)
            && (forall id | HasVIP(s, sid, id) :: HasVIP(t, sid, id))
            && t.nets.Keys == s.nets.Keys
  {
  }

  /** The loop of AllocateService ends well when every network of the service is allocated and
      its VIP range has room at its turn; then each of them records a VIP for the service. It
      stops at the first that fails, with the state as that round found it. */
  lemma {:induction false} ServiceRoundsResult(s: State, sid: string, targets: seq<string>) returns (k: nat)
    ensures var (t, ok) := ServiceRounds(s, sid, targets);
            && k <= |targets| && (ok <==> k == |targets|)
            && t.nets.Keys == s.nets.Keys
            && (forall id | HasVIP(s, sid, id) :: HasVIP(t, sid, id))
            && (forall j | 0 <= j < k :: HasVIP(t, sid, targets[j]))
            && (k < |targets| ==> targets[k] !in t.nets || VIPAllocated(t.pools, KeyOf(t, targets[k]), sid).1.Err?)
    decreases |targets|
  {
    k := 0;
    if |targets| > 0 {
      ServiceRoundRecords(s, sid, targets[0]);
      var (t, ok) := ServiceRound(s, sid, targets[0]);
      if ok {
        var l := ServiceRoundsResult(t, sid, targets[1..]);
        k := l + 1;
      }
    }
  }

  /** A service that publishes ports is recorded on the ingress network that the walk meets,
      without a VIP and in place of what it had there; on all other networks, and on all when it
      publishes none, the rounds decide. */
  lemma PublishedOnIngress(s: State, sid: string, targets: seq<string>, publishes: bool, pick: Option<string>)
    requires FirstIngress(s, pick) && AllocateService(s, sid, targets, publishes, pick).1
    ensures var t := AllocateService(s, sid, targets, publishes, pick).0;
            var rounds := ServiceRounds(s, sid, targets).0;
            && t.pools == rounds.pools && t.nets.Keys == s.nets.Keys
            && (publishes && (exists id :: id in s.nets && s.nets[id].ingress) ==>
                  pick.Some? && t.nets[pick.value].ingress && sid in t.nets[pick.value].services
                  && t.nets[pick.value].services[sid] == ServiceVIP(sid, t.nets[pick.value].id, None))
            && (forall id | id in t.nets && !(publishes && pick == Some(id)) :: t.nets[id] == rounds.nets[id])
  {
    RoundsKeepNets(s, sid, targets);
  }

  /** After DeallocateService no record of the service is left on any of its networks, nor on the
      ingress network that the walk meets; no other record is touched. */
  lemma ServiceForgotten(s: State, sid: string, targets: seq<string>, pick: Option<string>)
    requires FirstIngress(s, pick)
    ensures var t := DeallocateService(s, sid, targets, pick);
            && t.nets.Keys == s.nets.Keys
            && (forall id | id in t.nets && (id in targets || pick == Some(id)) :: sid !in t.nets[id].services)
            && (forall id | id in s.nets :: t.nets[id].services - {sid} == s.nets[id].services - {sid})
            && (forall id | id in s.nets && id !in targets && pick != Some(id) :: t.nets[id] == s.nets[id])
  {
    RoundsForget(s, sid, targets);
    UnserviceKeepsNets(s, sid, targets);
    if pick.Some? {
      var n := UnserviceRounds(s, sid, targets).nets[pick.value];
      assert n.services - {sid} - {sid} == n.services - {sid};
    }
  }

  lemma {:induction false} RoundsForget(s: State, sid: string, targets: seq<string>)
    ensures var t := UnserviceRounds(s, sid, targets);
            && t.nets.Keys == s.nets.Keys
            && (forall id | id in t.nets && (id in targets || sid !in s.nets[id].services) :: sid !in t.nets[id].services)
            && (forall id | id in s.nets :: t.nets[id].services - {sid} == s.nets[id].services - {sid})
            && (forall id | id in s.nets && id !in targets :: t.nets[id] == s.nets[id])
    decreases |targets|
  {
    if |targets| > 0 {
      RoundForgets(s, sid, targets[0]);
      RoundsForget(UnserviceRound(s, sid, targets[0]), sid, targets[1..]);
      assert targets == [targets[0]] + targets[1..];
    }
  }

  lemma RoundForgets(s: State, sid: string, target: string)
    ensures var t := UnserviceRound(s, sid, target);
            && t.nets.Keys == s.nets.Keys
            && (target in t.nets ==> sid !in t.nets[target].services)
            && (forall id | id in s.nets :: t.nets[id].services - {sid} == s.nets[id].services - {sid})
            && (forall id | id in s.nets && id != target :: t.nets[id] == s.nets[id])
  {
    if target in s.nets {
      assert s.nets[target].services - {sid} - {sid} == s.nets[target].services - {sid};
    }
  }

  // ----- Tasks and nodes -----

  /** AllocateTask fills the attachments in order with the addresses of their pools and stops at
      the first whose network is unknown or whose pool gives none; from there on nothing is
      touched, and it ends well exactly when there is no such attachment. */
  lemma {:induction false} TaskResult(s: State, tid: string, atts: seq<TaskNet>, i: nat) returns (k: nat)
    requires i <= |atts|
    ensures var (t, atts1, ok) := AllocateTask(s, tid, atts, i);
            && i <= k <= |atts| == |atts1| && (ok <==> k == |atts|) && t.nets == s.nets
            && (forall j | 0 <= j < |atts| && !(i <= j < k) :: atts1[j] == atts[j])
            && (forall j | i <= j < k ::
                  && atts1[j].network == atts[j].network && atts[j].network in s.nets
                  && |atts1[j].addresses| == 1 && atts1[j].addresses[0].Text?)
            && (k < |atts| ==> atts[k].network !in t.nets || Allocated(t.pools, KeyOf(t, atts[k].network), tid).1.Err?)
    decreases |atts| - i
  {
    k := i;
    if i < |atts| {
      TaskRoundResult(s, tid, atts[i]);
      var (s1, att, ok) := TaskRound(s, tid, atts[i]);
      if ok {
        k := TaskResult(s1, tid, atts[i := att], i + 1);
      }
    }
  }

  /** One attachment gets exactly the address that AllocateIP gives the task on its network. */
  lemma TaskRoundResult(s: State, tid: string, att: TaskNet)
    ensures var (t, att1, ok) := TaskRound(s, tid, att);
            && (ok <==> att.network in s.nets && Allocated(s.pools, KeyOf(s, att.network), tid).1.Ok?)
            && (!ok ==> t == s && att1 == att)
            && (ok ==> var (ps, r) := Allocated(s.pools, KeyOf(s, att.network), tid);
                       t == s.(pools := ps) && att1 == TaskNet(att.network, [Text(r.value.Num())]))
  {
    if att.network in s.nets && Allocated(s.pools, KeyOf(s, att.network), tid).1.Err? {
      assert Allocated(s.pools, KeyOf(s, att.network), tid).0 == s.pools;
    }
  }

  /** AllocateAttachment writes the address that AllocateIP gives the node into the record of the
      network and into the attachment, and fails without effect when there is none. */
  lemma AttachmentResult(s: State, nid: string, att: TaskNet)
    ensures var (t, att1, ok) := AllocateAttachment(s, nid, att);
            && (ok <==> att.network in s.nets && Allocated(s.pools, KeyOf(s, att.network), nid).1.Ok?)
            && (!ok ==> t == s && att1 == att)
            && (ok ==>
                  var (ps, r) := Allocated(s.pools, KeyOf(s, att.network), nid);
                  && t.pools == ps && nid in t.nets[att.network].attachments
                  && t.nets[att.network].attachments[nid] == NodeAttachment(nid, s.nets[att.network].id, r.value)
                  && att1 == TaskNet(att.network, [Text(t.nets[att.network].attachments[nid].ipAddress.Num())]))
  {
  }

  /** Afterwards the node is no longer recorded on the network, and an attachment that was
      recorded has lost its addresses; others keep theirs. */
  lemma DetachmentResult(s: State, nid: string, att: TaskNet)
    ensures var (t, att1) := DeallocateAttachment(s, nid, att);
            if att.network in s.nets && nid in s.nets[att.network].attachments then
              && att1 == TaskNet(att.network, []) && nid !in t.nets[att.network].attachments
              && t.pools == Released(s.pools, KeyOf(s, att.network),
                                     Some(s.nets[att.network].attachments[nid].ipAddress.Num())).0
            else t == s && att1 == att
  {
  }

  // ----- Nobody holds the gateway -----

  /** Each pool reserves the base address of its subnet, its gateway, and has not given it out. */
  predicate PoolsClean(ps: Pools) {
    forall c | c in ps ::
      && ps[c].subnet.Text() == c && ps[c].gateway.Num() == ps[c].subnet.Base()
      && ps[c].reserved == [ps[c].gateway] && ps[c].gateway.Num() !in ps[c].used
  }

  /** Each network has the base address of its subnet as its gateway; records carry the names
      they are filed under. */
  predicate NetsLabelled(nets: map<string, Net>) {
    forall id | id in nets ::
      && nets[id].id == id && nets[id].gateway.Num() == nets[id].subnet.Base()
      && (forall sid | sid in nets[id].services ::
            nets[id].services[sid].serviceID == sid && nets[id].services[sid].networkID == id)
      && (forall nid | nid in nets[id].attachments ::
            nets[id].attachments[nid].nodeID == nid && nets[id].attachments[nid].networkID == id)
  }

  predicate Clean(s: State) {
    PoolsClean(s.pools) && NetsLabelled(s.nets)
  }

  lemma AllocatedKeepsClean(ps: Pools, c: Cidr, owner: string)
    requires PoolsClean(ps)
    ensures PoolsClean(Allocated(ps, c, owner).0)
  {
    if c in ps {
      ScanFree(ps[c], ps[c].next, 256);
      assert ps[c].reserved[0] == ps[c].gateway;
    }
  }

  lemma VIPAllocatedKeepsClean(ps: Pools, c: Cidr, sid: string)
    requires PoolsClean(ps)
    ensures PoolsClean(VIPAllocated(ps, c, sid).0)
  {
    if c in ps {
      ScanDownFree(ps[c], VIPRangeStart(ps[c].subnet), 16);
      assert ps[c].reserved[0] == ps[c].gateway;
    }
  }

  lemma ReleasedKeepsClean(ps: Pools, c: Cidr, a: Option<nat>)
    requires PoolsClean(ps)
    ensures PoolsClean(Released(ps, c, a).0)
  {
  }

  lemma {:induction false} ServiceRoundsKeepClean(s: State, sid: string, targets: seq<string>)
    requires Clean(s)
    ensures Clean(ServiceRounds(s, sid, targets).0)
    decreases |targets|
  {
    if |targets| > 0 && targets[0] in s.nets {
      VIPAllocatedKeepsClean(s.pools, KeyOf(s, targets[0]), sid);
      if ServiceRound(s, sid, targets[0]).1 {
        ServiceRoundsKeepClean(ServiceRound(s, sid, targets[0]).0, sid, targets[1..]);
      }
    }
  }

  lemma {:induction false} UnserviceRoundsKeepClean(s: State, sid: string, targets: seq<string>)
    requires Clean(s)
    ensures Clean(UnserviceRounds(s, sid, targets))
    decreases |targets|
  {
    if |targets| > 0 {
      UnserviceRoundKeepsClean(s, sid, targets[0]);
      UnserviceRoundsKeepClean(UnserviceRound(s, sid, targets[0]), sid, targets[1..]);
    }
  }

  lemma UnserviceRoundKeepsClean(s: State, sid: string, target: string)
    requires Clean(s)
    ensures Clean(UnserviceRound(s, sid, target))
  {
    if target in s.nets && sid in s.nets[target].services {
      var vip := s.nets[target].services[sid].vip;
      ReleasedKeepsClean(s.pools, KeyOf(s, target), if vip.Some? then Some(vip.value.Num()) else None);
    }
  }

  lemma {:induction false} AllocateTaskKeepsClean(s: State, tid: string, atts: seq<TaskNet>, i: nat)
    requires Clean(s) && i <= |atts|
    ensures Clean(AllocateTask(s, tid, atts, i).0)
    decreases |atts| - i
  {
    if i < |atts| && atts[i].network in s.nets {
      AllocatedKeepsClean(s.pools, KeyOf(s, atts[i].network), tid);
      var (s1, att, ok) := TaskRound(s, tid, atts[i]);
      if ok {
        AllocateTaskKeepsClean(s1, tid, atts[i := att], i + 1);
      }
    }
  }

  lemma {:induction false} DeallocateTaskKeepsClean(s: State, atts: seq<TaskNet>, i: nat)
    requires Clean(s) && i <= |atts|
    ensures Clean(DeallocateTask(s, atts, i).0)
    decreases |atts| - i
  {
    if i < |atts| {
      var (s1, att) := UntaskRound(s, atts[i]);
      if s1 != s {
        ReleasedKeepsClean(s.pools, KeyOf(s, atts[i].network), Some(atts[i].addresses[0].num));
      }
      DeallocateTaskKeepsClean(s1, atts[i := att], i + 1);
    }
  }

  lemma AllocateNetKeepsClean(gen: Generator, s: State, id: string, driver: string, ingress: bool, written: bool)
    requires Clean(s) && Sound(gen)
    ensures Clean(AllocateNet(gen, s, id, driver, ingress, written).0)
  {
    AllocateNetResult(gen, s, id, driver, ingress, written);
    var key := gen((s.index + 1) % V4_SIZE);
    if id !in s.nets && DriverSupported(driver) {
      ParsedIs(key.value);
      CreatedIs(s.pools, key.value, Some(Bytes16(V4_MAPPED + key.value.addr)));
    }
  }

  lemma NodeStepsKeepClean(s: State, nid: string, att: TaskNet)
    requires Clean(s)
    ensures Clean(AllocateAttachment(s, nid, att).0) && Clean(DeallocateAttachment(s, nid, att).0)
  {
    if att.network in s.nets {
      AllocatedKeepsClean(s.pools, KeyOf(s, att.network), nid);
      if nid in s.nets[att.network].attachments {
        ReleasedKeepsClean(s.pools, KeyOf(s, att.network), Some(s.nets[att.network].attachments[nid].ipAddress.Num()));
      }
    }
  }

  lemma StepKeepsClean(gen: Generator, y: System, op: Op)
    requires Sound(gen) && Clean(y.s) && Possible(y, op)
    ensures Clean(Step(gen, y, op).s)
  {
    match op {
      case NewTask(_, _) =>
      case NetUp(id, driver, ingress, written) => AllocateNetKeepsClean(gen, y.s, id, driver, ingress, written);
      case NetDown(_) =>
      case ServiceUp(sid, targets, _, _) =>
        ServiceRoundsKeepClean(y.s, sid, targets);
        RoundsKeepNets(y.s, sid, targets);
      case ServiceDown(sid, targets, _) =>
        UnserviceRoundsKeepClean(y.s, sid, targets);
        UnserviceKeepsNets(y.s, sid, targets);
      case TaskUp(tid) => AllocateTaskKeepsClean(y.s, tid, y.tasks[tid], 0);
      case TaskDown(tid) => DeallocateTaskKeepsClean(y.s, y.tasks[tid], 0);
      case NodeUp(nid, att) => NodeStepsKeepClean(y.s, nid, att);
      case NodeDown(nid, att) => NodeStepsKeepClean(y.s, nid, att);
    }
  }

  lemma {:induction false} RunsKeepClean(gen: Generator, ops: seq<Op>, trace: seq<System>, k: nat)
    requires Sound(gen) && IsRun(gen, ops, trace) && k < |trace|
    ensures Clean(trace[k].s)
    decreases k
  {
    if k > 0 {
      RunsKeepClean(gen, ops, trace, k - 1);
      StepKeepsClean(gen, trace[k - 1], ops[k - 1]);
    }
  }

  /** Over every run, as long as the ledger holds, no service, node or task holds the gateway of a
      network, which is its base address, nor any other reserved address of its pool. */
  lemma NobodyHoldsGateway(gen: Generator, ops: seq<Op>, trace: seq<System>, k: nat, slot: Slot)
    requires Sound(gen) && IsRun(gen, ops, trace) && k < |trace| && Ledger(trace[k])
    requires Held(trace[k], slot).Some?
    ensures var s, (id, a) := trace[k].s, Held(trace[k], slot).value;
            && id in s.nets && a != s.nets[id].gateway.Num() && a != s.nets[id].subnet.Base()
            && KeyOf(s, id) in s.pools
            && forall i | 0 <= i < |s.pools[KeyOf(s, id)].reserved| :: s.pools[KeyOf(s, id)].reserved[i].Num() != a
  {
    RunsKeepClean(gen, ops, trace, k);
  }
}

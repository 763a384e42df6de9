/** The state of pkg/cni/provider.go and pkg/cni/allocator.go and the effect of each operation
    on it. The classes of module Allocator are proved to follow these functions.
 */
module AllocatorModel {
  import opened Addresses
  import opened Options
  import opened Subnets
  import opened Ipam

  /** The part of CNIConfig that subnets are generated from. */
  datatype Config = Config(subnetPool: Cidr, subnetSize: int)

  /** The subnet texts of a provider, by index. */
  type Generator = nat -> Option<Cidr>

  function GeneratorOf(cfg: Config): Generator {
    (i: nat) => GeneratedSubnet(cfg.subnetPool, cfg.subnetSize, i)
  }

  datatype ServiceVIP = ServiceVIP(serviceID: string, networkID: string, vip: Option<IP>)

  datatype NodeAttachment = NodeAttachment(nodeID: string, networkID: string, ipAddress: IP)

  datatype Net = Net(id: string, subnet: Subnet, gateway: IP, ingress: bool,
                     services: map<string, ServiceVIP>, attachments: map<string, NodeAttachment>)

  datatype State = State(index: nat, pools: Pools, nets: map<string, Net>)

  /** An entry of a SwarmKit Addresses list: the text of an address, or text that does not parse. */
  datatype AddressText = Text(num: nat) | Unparsable

  /** A task's attachment to a network. */
  datatype TaskNet = TaskNet(network: string, addresses: seq<AddressText>)

  predicate DriverSupported(driver: string) {
    driver == "bridge" || driver == "vxlan" || driver == ""
  }

  function KeyOf(s: State, id: string): Cidr
    requires id in s.nets
  {
    s.nets[id].subnet.Text()
  }

  // ----- Networks -----

  /** CNIProvider.AllocateNetwork, on the index and the pools. The index is consumed and the
      pool stays even when a later step fails; configWritten is the outcome of generating and
      writing the CNI files. */
  function ProvideNetwork(gen: Generator, index: nat, pools: Pools, configWritten: bool)
    : (nat, Pools, Option<(Subnet, IP)>)
  {
    var i := (index + 1) % V4_SIZE;
    match gen(i)
    case None => (i, pools, None)
    case Some(c) =>
      match ParseCIDR(c)
      case None => (i, pools, None)
      case Some((subnet, gateway)) =>
        (i, Created(pools, c, Some(gateway)), if configWritten then Some((subnet, gateway)) else None)
  }

  /** Allocate */
  function AllocateNet(gen: Generator, s: State, id: string, driver: string, ingress: bool, configWritten: bool)
    : (State, bool)
  {
    if id in s.nets then (s, true)
    else if !DriverSupported(driver) then (s, false)
    else
      var (i, ps, r) := ProvideNetwork(gen, s.index, s.pools, configWritten);
      match r
      case None => (State(i, ps, s.nets), false)
      case Some((subnet, gateway)) =>
        (State(i, ps, s.nets[id := Net(id, subnet, gateway, ingress, map[], map[])]), true)
  }

  /** Deallocate */
  function DeallocateNet(s: State, id: string): State {
    if id !in s.nets then s
    else s.(pools := s.pools - {KeyOf(s, id)}, nets := s.nets - {id})
  }

  // ----- Services -----

  function SetService(s: State, id: string, sid: string, vip: Option<IP>): State
    requires id in s.nets
  {
    var n := s.nets[id];
    s.(nets := s.nets[id := n.(services := n.services[sid := ServiceVIP(sid, n.id, vip)])])
  }

  function DropService(s: State, id: string, sid: string): State
    requires id in s.nets
  {
    var n := s.nets[id];
    s.(nets := s.nets[id := n.(services := n.services - {sid})])
  }

  /** One round of the loop of AllocateService. */
  function ServiceRound(s: State, sid: string, target: string): (State, bool) {
    if target !in s.nets then (s, false)
    else match VIPAllocated(s.pools, KeyOf(s, target), sid)
      case (ps, Ok(vip)) => (SetService(s.(pools := ps), target, sid, Some(vip)), true)
      case (_, Err(_)) => (s, false)
  }

  function ServiceRounds(s: State, sid: string, targets: seq<string>): (State, bool)
    decreases |targets|
  {
    if |targets| == 0 then (s, true)
    else match ServiceRound(s, sid, targets[0])
      case (s1, true) => ServiceRounds(s1, sid, targets[1..])
      case (s1, false) => (s1, false)
  }

  /** Which ingress network a walk over the networks meets first, if there is one. */
  predicate FirstIngress(s: State, pick: Option<string>) {
    match pick
    case Some(id) => id in s.nets && s.nets[id].ingress
    case None => forall id | id in s.nets :: !s.nets[id].ingress
  }

  /** AllocateService */
  function AllocateService(s: State, sid: string, targets: seq<string>, publishes: bool, pick: Option<string>)
    : (State, bool)
    requires FirstIngress(s, pick)
  {
    match ServiceRounds(s, sid, targets)
    case (s1, false) => (s1, false)
    case (s1, true) =>
      RoundsKeepNets(s, sid, targets);
      (if publishes && pick.Some? then SetService(s1, pick.value, sid, None) else s1, true)
  }

  lemma {:induction false} RoundsKeepNets(s: State, sid: string, targets: seq<string>)
    ensures var s1 := ServiceRounds(s, sid, targets).0;
            s1.nets.Keys == s.nets.Keys && s1.index == s.index &&
            forall id | id in s.nets ::
              s1.nets[id] == s.nets[id].(services := s1.nets[id].services)
    decreases |targets|
  {
    if |targets| > 0 && ServiceRound(s, sid, targets[0]).1 {
      RoundsKeepNets(ServiceRound(s, sid, targets[0]).0, sid, targets[1..]);
    }
  }

  /** One round of the loop of DeallocateService; a failing release is ignored. */
  function UnserviceRound(s: State, sid: string, target: string): State {
    if target !in s.nets || sid !in s.nets[target].services then s
    else
      var vip := s.nets[target].services[sid].vip;
      var ps := Released(s.pools, KeyOf(s, target), if vip.Some? then Some(vip.value.Num()) else None).0;
      DropService(s.(pools := ps), target, sid)
  }

  function UnserviceRounds(s: State, sid: string, targets: seq<string>): State
    decreases |targets|
  {
    if |targets| == 0 then s
    else UnserviceRounds(UnserviceRound(s, sid, targets[0]), sid, targets[1..])
  }

  lemma {:induction false} UnserviceKeepsNets(s: State, sid: string, targets: seq<string>)
    ensures var s1 := UnserviceRounds(s, sid, targets);
            s1.nets.Keys == s.nets.Keys && s1.index == s.index &&
            forall id | id in s.nets ::
              s1.nets[id] == s.nets[id].(services := s1.nets[id].services)
    decreases |targets|
  {
    if |targets| > 0 {
      UnserviceKeepsNets(UnserviceRound(s, sid, targets[0]), sid, targets[1..]);
    }
  }

  /** DeallocateService */
  function DeallocateService(s: State, sid: string, targets: seq<string>, pick: Option<string>): State
    requires FirstIngress(s, pick)
  {
    var s1 := UnserviceRounds(s, sid, targets);
    UnserviceKeepsNets(s, sid, targets);
    if pick.Some? then DropService(s1, pick.value, sid) else s1
  }

  // ----- Tasks -----

  /** One round of the loop of AllocateTask. */
  function TaskRound(s: State, tid: string, att: TaskNet): (State, TaskNet, bool) {
    if att.network !in s.nets then (s, att, false)
    else match Allocated(s.pools, KeyOf(s, att.network), tid)
      case (ps, Ok(ip)) => (s.(pools := ps), att.(addresses := [Text(ip.Num())]), true)
      case (_, Err(_)) => (s, att, false)
  }

  /** AllocateTask from attachment i on. */
  function AllocateTask(s: State, tid: string, atts: seq<TaskNet>, i: nat): (State, seq<TaskNet>, bool)
    requires i <= |atts|
    decreases |atts| - i
  {
    if i == |atts| then (s, atts, true)
    else match TaskRound(s, tid, atts[i])
      case (s1, att, true) => AllocateTask(s1, tid, atts[i := att], i + 1)
      case (s1, _, false) => (s1, atts, false)
  }

  /** One round of the loop of DeallocateTask: the first address is released when it parses. */
  function UntaskRound(s: State, att: TaskNet): (State, TaskNet) {
    if att.network !in s.nets || |att.addresses| == 0 || att.addresses[0].Unparsable? then (s, att)
    else
      var ps := Released(s.pools, KeyOf(s, att.network), Some(att.addresses[0].num)).0;
      (s.(pools := ps), att.(addresses := []))
  }

  /** DeallocateTask from attachment i on. */
  function DeallocateTask(s: State, atts: seq<TaskNet>, i: nat): (State, seq<TaskNet>)
    requires i <= |atts|
    decreases |atts| - i
  {
    if i == |atts| then (s, atts)
    else
      var (s1, att) := UntaskRound(s, atts[i]);
      DeallocateTask(s1, atts[i := att], i + 1)
  }

  // ----- Node attachments -----

  function SetAttachment(s: State, id: string, nid: string, ip: IP): State
    requires id in s.nets
  {
    var n := s.nets[id];
    s.(nets := s.nets[id := n.(attachments := n.attachments[nid := NodeAttachment(nid, n.id, ip)])])
  }

  function DropAttachment(s: State, id: string, nid: string): State
    requires id in s.nets
  {
    var n := s.nets[id];
    s.(nets := s.nets[id := n.(attachments := n.attachments - {nid})])
  }

  /** AllocateAttachment */
  function AllocateAttachment(s: State, nid: string, att: TaskNet): (State, TaskNet, bool) {
    if att.network !in s.nets then (s, att, false)
    else match Allocated(s.pools, KeyOf(s, att.network), nid)
      case (_, Err(_)) => (s, att, false)
      case (ps, Ok(ip)) =>
        (SetAttachment(s.(pools := ps), att.network, nid, ip), att.(addresses := [Text(ip.Num())]), true)
  }

  /** DeallocateAttachment */
  function DeallocateAttachment(s: State, nid: string, att: TaskNet): (State, TaskNet) {
    if att.network !in s.nets || nid !in s.nets[att.network].attachments then (s, att)
    else
      var a := s.nets[att.network].attachments[nid].ipAddress.Num();
      var ps := Released(s.pools, KeyOf(s, att.network), Some(a)).0;
      (DropAttachment(s.(pools := ps), att.network, nid), att.(addresses := []))
  }
}

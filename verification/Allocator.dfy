/** The objects of pkg/cni/provider.go and pkg/cni/allocator.go. Each method is proved to move
    the state exactly as its function in AllocatorModel says.
 */
module Allocator {
  import opened Addresses
  import opened Options
  import opened Subnets
  import opened Ipam
  import opened AllocatorModel

  /** An api.NetworkAttachment, whose addresses the allocator fills in. */
  class NetworkAttachment {
    const Network: string
    var Addresses: seq<AddressText>

    constructor (network: string)
      ensures Contents() == TaskNet(network, [])
    {
      Network, Addresses := network, [];
    }

    function Contents(): TaskNet
      reads this
    {
      TaskNet(Network, Addresses)
    }
  }

  ghost function AllContents(atts: seq<NetworkAttachment>): (r: seq<TaskNet>)
    reads atts
    ensures |r| == |atts| && forall i | 0 <= i < |atts| :: r[i] == atts[i].Contents()
  {
    if |atts| == 0 then [] else AllContents(atts[..|atts| - 1]) + [atts[|atts| - 1].Contents()]
  }

  ghost predicate Distinct<T>(xs: seq<T>) {
    forall i, j | 0 <= i < j < |xs| :: xs[i] != xs[j]
  }

  lemma OneAttachmentDiffers(atts: seq<NetworkAttachment>, before: seq<TaskNet>, i: nat)
    requires i < |atts| == |before|
    requires forall j | 0 <= j < |atts| && j != i :: atts[j].Contents() == before[j]
    ensures AllContents(atts) == before[i := atts[i].Contents()]
  {
  }

  class CNIProvider {
    const config: Config
    const ipamMgr: IPAMManager
    var networkIndex: nat

    constructor (cfg: Config)
      ensures config == cfg && networkIndex == 0 && fresh(ipamMgr)
      ensures ipamMgr.Valid() && ipamMgr.pools == map[]
    {
      config := cfg;
      networkIndex := 0;
      ipamMgr := new IPAMManager();
    }

    /** AllocateNetwork; the registry of networks by provider name is not part of the state. */
    method AllocateNetwork(configWritten: bool) returns (r: Option<(Subnet, IP)>)
      requires ipamMgr.Valid()
      modifies this, ipamMgr
      ensures ipamMgr.Valid()
      ensures (networkIndex, ipamMgr.State(), r)
           == ProvideNetwork(GeneratorOf(config), old(networkIndex), old(ipamMgr.State()), configWritten)
    {
      networkIndex := (networkIndex + 1) % V4_SIZE;
      assert ipamMgr.State() == old(ipamMgr.State());
      var subnet := GenerateSubnet(config.subnetPool, config.subnetSize, networkIndex);
      if subnet.None? {
        return None;
      }
      var parsed := ParseCIDR(subnet.value);
      if parsed.None? {
        return None;
      }
      var pool := ipamMgr.CreatePool(subnet.value, Some(parsed.value.1));
      r := if pool.Err? || !configWritten then None else parsed;
    }
  }

  class CNINetworkAllocator {
    const provider: CNIProvider
    var allocatedNets: map<string, Net>

    constructor (p: CNIProvider)
      requires p.ipamMgr.Valid()
      ensures provider == p && allocatedNets == map[] && Valid()
    {
      provider, allocatedNets := p, map[];
    }

    ghost predicate Valid()
      reads provider.ipamMgr
    {
      provider.ipamMgr.Valid()
    }

    ghost function Contents(): State
      reads this, provider, provider.ipamMgr, provider.ipamMgr.pools.Values
    {
      State(provider.networkIndex, provider.ipamMgr.State(), allocatedNets)
    }

    // ----- Networks -----

    method Allocate(id: string, driver: string, ingress: bool, configWritten: bool) returns (ok: bool)
      requires Valid()
      modifies this, provider, provider.ipamMgr
      ensures Valid()
      ensures (Contents(), ok)
           == AllocateNet(GeneratorOf(provider.config), old(Contents()), id, driver, ingress, configWritten)
    {
      if id in allocatedNets {
        return true;
      }
      if !(driver == "bridge" || driver == "vxlan" || driver == "") {
        return false;
      }
      var network := provider.AllocateNetwork(configWritten);
      ok := network.Some?;
      if ok {
        var (subnet, gateway) := network.value;
        ghost var pools := provider.ipamMgr.State();
        allocatedNets := allocatedNets[id := Net(id, subnet, gateway, ingress, map[], map[])];
        assert provider.ipamMgr.State() == pools;
      }
    }

    method Deallocate(id: string)
      requires Valid()
      modifies this, provider.ipamMgr
      ensures Valid()
      ensures Contents() == DeallocateNet(old(Contents()), id)
    {
      if id in allocatedNets {
        var key := allocatedNets[id].subnet.Text();
        provider.ipamMgr.pools := provider.ipamMgr.pools - {key};
        assert provider.ipamMgr.State() == old(provider.ipamMgr.State()) - {key};
        allocatedNets := allocatedNets - {id};
      }
    }

    // ----- Services -----

    /** The walk over the networks that stops at the first ingress network it meets. */
    method FindIngress() returns (pick: Option<string>)
      ensures FirstIngress(Contents(), pick)
    {
      var rest := allocatedNets.Keys;
      while rest != {}
        invariant rest <= allocatedNets.Keys
        invariant forall id | id in allocatedNets.Keys - rest :: !allocatedNets[id].ingress
      {
        var id :| id in rest;
        if allocatedNets[id].ingress {
          return Some(id);
        }
        rest := rest - {id};
      }
      return None;
    }

    /** Overwrites the record of a service on one network. */
    method RecordService(id: string, sid: string, vip: Option<IP>)
      requires id in allocatedNets
      modifies this
      ensures Contents() == SetService(old(Contents()), id, sid, vip)
    {
      var net := allocatedNets[id];
      allocatedNets := allocatedNets[id := net.(services := net.services[sid := ServiceVIP(sid, net.id, vip)])];
    }

    /** Deletes the record of a service on one network. */
    method ForgetService(id: string, sid: string)
      requires id in allocatedNets
      modifies this
      ensures Contents() == DropService(old(Contents()), id, sid)
    {
      var net := allocatedNets[id];
      allocatedNets := allocatedNets[id := net.(services := net.services - {sid})];
    }

    /** The body of AllocateService's loop. */
    method AllocateServiceOn(sid: string, target: string) returns (ok: bool)
      requires Valid()
      modifies this, provider.ipamMgr.pools.Values
      ensures (Contents(), ok) == ServiceRound(old(Contents()), sid, target)
    {
      if target !in allocatedNets {
        return false;
      }
      var vip := provider.ipamMgr.AllocateVIP(allocatedNets[target].subnet.Text(), sid);
      ok := vip.Ok?;
      if ok {
        RecordService(target, sid, Some(vip.value));
      }
    }

    method AllocateService(sid: string, targets: seq<string>, publishes: bool)
      returns (ok: bool, ghost pick: Option<string>)
      requires Valid()
      modifies this, provider.ipamMgr.pools.Values
      ensures FirstIngress(old(Contents()), pick)
      ensures (Contents(), ok) == AllocatorModel.AllocateService(old(Contents()), sid, targets, publishes, pick)
    {
      pick := FindIngress();
      for i := 0 to |targets|
        invariant ServiceRounds(old(Contents()), sid, targets) == ServiceRounds(Contents(), sid, targets[i..])
      {
        ok := AllocateServiceOn(sid, targets[i]);
        assert targets[i..][1..] == targets[i + 1..];
        if !ok {
          return;
        }
      }
      RoundsKeepNets(old(Contents()), sid, targets);
      if publishes {
        var first := FindIngress();
        pick := first;
        if first.Some? {
          RecordService(first.value, sid, None);
        }
      }
      ok := true;
    }

    /** The body of DeallocateService's loop. */
    method DeallocateServiceOn(sid: string, target: string)
      requires Valid()
      modifies this, provider.ipamMgr.pools.Values
      ensures Contents() == UnserviceRound(old(Contents()), sid, target)
    {
      if target in allocatedNets && sid in allocatedNets[target].services {
        var vip := allocatedNets[target].services[sid].vip;
        var released := provider.ipamMgr.ReleaseIP(if vip.Some? then Some(vip.value.Num()) else None,
                                                   allocatedNets[target].subnet.Text());
        ForgetService(target, sid);
      }
    }

    method DeallocateService(sid: string, targets: seq<string>) returns (ghost pick: Option<string>)
      requires Valid()
      modifies this, provider.ipamMgr.pools.Values
      ensures FirstIngress(old(Contents()), pick)
      ensures Contents() == AllocatorModel.DeallocateService(old(Contents()), sid, targets, pick)
    {
      for i := 0 to |targets|
        invariant UnserviceRounds(old(Contents()), sid, targets) == UnserviceRounds(Contents(), sid, targets[i..])
      {
        DeallocateServiceOn(sid, targets[i]);
        assert targets[i..][1..] == targets[i + 1..];
      }
      UnserviceKeepsNets(old(Contents()), sid, targets);
      var first := FindIngress();
      pick := first;
      if first.Some? {
        ForgetService(first.value, sid);
      }
    }

    // ----- Tasks -----

    /** The body of AllocateTask's loop, on one attachment. */
    method AllocateTaskOn(tid: string, att: NetworkAttachment) returns (ok: bool)
      requires Valid()
      modifies provider.ipamMgr.pools.Values, att
      ensures (Contents(), att.Contents(), ok) == TaskRound(old(Contents()), tid, old(att.Contents()))
    {
      if att.Network !in allocatedNets {
        return false;
      }
      var ip := provider.ipamMgr.AllocateIP(allocatedNets[att.Network].subnet.Text(), tid);
      ok := ip.Ok?;
      if ok {
        ghost var pools := provider.ipamMgr.State();
        att.Addresses := [Text(ip.value.Num())];
        assert provider.ipamMgr.State() == pools;
      }
    }

    method AllocateTask(tid: string, networks: seq<NetworkAttachment>) returns (ok: bool)
      requires Valid() && Distinct(networks)
      modifies provider.ipamMgr.pools.Values, networks
      ensures (Contents(), AllContents(networks), ok)
           == AllocatorModel.AllocateTask(old(Contents()), tid, old(AllContents(networks)), 0)
    {
      ghost var goal := AllocatorModel.AllocateTask(Contents(), tid, AllContents(networks), 0);
      for i := 0 to |networks|
        invariant goal == AllocatorModel.AllocateTask(Contents(), tid, AllContents(networks), i)
      {
        var att := networks[i];
        ghost var before := AllContents(networks);
        ok := AllocateTaskOn(tid, att);
        OneAttachmentDiffers(networks, before, i);
        if !ok {
          assert AllContents(networks) == before;
          return;
        }
      }
      ok := true;
    }

    /** The body of DeallocateTask's loop, on one attachment. */
    method DeallocateTaskOn(att: NetworkAttachment)
      requires Valid()
      modifies provider.ipamMgr.pools.Values, att
      ensures (Contents(), att.Contents()) == UntaskRound(old(Contents()), old(att.Contents()))
    {
      if att.Network in allocatedNets && |att.Addresses| != 0 && att.Addresses[0].Text? {
        var released := provider.ipamMgr.ReleaseIP(Some(att.Addresses[0].num), allocatedNets[att.Network].subnet.Text());
        ghost var pools := provider.ipamMgr.State();
        assert pools == UntaskRound(old(Contents()), old(att.Contents())).0.pools;
        att.Addresses := [];
        assert provider.ipamMgr.State() == pools;
      }
    }

    method DeallocateTask(networks: seq<NetworkAttachment>)
      requires Valid() && Distinct(networks)
      modifies provider.ipamMgr.pools.Values, networks
      ensures (Contents(), AllContents(networks))
           == AllocatorModel.DeallocateTask(old(Contents()), old(AllContents(networks)), 0)
    {
      ghost var goal := AllocatorModel.DeallocateTask(Contents(), AllContents(networks), 0);
      for i := 0 to |networks|
        invariant goal == AllocatorModel.DeallocateTask(Contents(), AllContents(networks), i)
      {
        var att := networks[i];
        ghost var before := AllContents(networks);
        DeallocateTaskOn(att);
        OneAttachmentDiffers(networks, before, i);
      }
    }

    // ----- Node attachments -----

    /** Overwrites the record of a node on the network of the attachment, and its addresses. */
    method RecordAttachment(nid: string, na: NetworkAttachment, ip: IP)
      requires na.Network in allocatedNets
      modifies this, na
      ensures Contents() == SetAttachment(old(Contents()), na.Network, nid, ip)
      ensures na.Contents() == old(na.Contents()).(addresses := [Text(ip.Num())])
    {
      var net := allocatedNets[na.Network];
      var attachment := NodeAttachment(nid, net.id, ip);
      allocatedNets := allocatedNets[na.Network := net.(attachments := net.attachments[nid := attachment])];
      na.Addresses := [Text(ip.Num())];
    }

    /** Deletes the record of a node on the network of the attachment, and its addresses. */
    method ForgetAttachment(nid: string, na: NetworkAttachment)
      requires na.Network in allocatedNets
      modifies this, na
      ensures Contents() == DropAttachment(old(Contents()), na.Network, nid)
      ensures na.Contents() == old(na.Contents()).(addresses := [])
    {
      var net := allocatedNets[na.Network];
      allocatedNets := allocatedNets[na.Network := net.(attachments := net.attachments - {nid})];
      na.Addresses := [];
    }

    method AllocateAttachment(nid: string, na: NetworkAttachment) returns (ok: bool)
      requires Valid()
      modifies this, provider.ipamMgr.pools.Values, na
      ensures (Contents(), na.Contents(), ok)
           == AllocatorModel.AllocateAttachment(old(Contents()), nid, old(na.Contents()))
    {
      if na.Network !in allocatedNets {
        return false;
      }
      var ip := provider.ipamMgr.AllocateIP(allocatedNets[na.Network].subnet.Text(), nid);
      ok := ip.Ok?;
      if ok {
        RecordAttachment(nid, na, ip.value);
      }
    }

    method DeallocateAttachment(nid: string, na: NetworkAttachment)
      requires Valid()
      modifies this, provider.ipamMgr.pools.Values, na
      ensures (Contents(), na.Contents())
           == AllocatorModel.DeallocateAttachment(old(Contents()), nid, old(na.Contents()))
    {
      if na.Network in allocatedNets && nid in allocatedNets[na.Network].attachments {
        var net := allocatedNets[na.Network];
        var released := provider.ipamMgr.ReleaseIP(Some(net.attachments[nid].ipAddress.Num()), net.subnet.Text());
        ForgetAttachment(nid, na);
      }
    }
  }
}

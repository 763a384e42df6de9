/** The TAP bookkeeping of pkg/network/manager.go, kept in step with the static address table. */
module TapTable {
  import opened Options
  import opened StaticAllocator

  /** A TapDevice: its name and its address, if it has one. */
  datatype Tap = Tap(name: string, ip: Option<nat>)

  /** A network attachment of a task and its first address, if it has one. */
  datatype Attachment = Attachment(network: string, address: Option<nat>)

  /** The outcome of a CNI ADD call: an error, a result without interface, or an interface. */
  datatype CniResult = CniError | CniEmpty | CniInterface(name: string, ip: nat)

  /** How the manager is set up. The digest stands for the hexadecimal SHA-256 prefix that
      names the devices of a task. */
  datatype Setup = Setup(plan: Option<Plan>, staticMode: bool, hasCNI: bool, digest: string -> string)

  /** The maps of the manager and of its allocator. */
  datatype State = State(taps: map<string, Tap>, table: Table)

  predicate Usable(u: Setup) {
    u.plan.Some? ==> u.plan.value.subnet.ones >= 1
  }

  function Decimal(n: nat): string {
    if n < 10 then ["0123456789"[n]] else Decimal(n / 10) + ["0123456789"[n % 10]]
  }

  function TapName(u: Setup, tid: string, i: nat): string {
    "tap-" + u.digest(tid) + "-" + Decimal(i)
  }

  function Prefix(tid: string): string {
    tid + "-"
  }

  /** The address the table holds for a VM. */
  ghost function AddressOf(t: Table, vm: string): (a: nat)
    requires vm in t.Values
    ensures a in t && t[a] == vm
  {
    var a :| a in t && t[a] == vm;
    a
  }

  ghost function Assign(p: Plan, t: Table, vm: string): (Table, Option<nat>)
    requires p.subnet.ones >= 1
  {
    if vm in t.Values then (t, Some(AddressOf(t, vm))) else Place(p, t, vm)
  }

  /** createTapDevice; kernelOk is the outcome of the commands that make the device. */
  ghost function CreateTap(u: Setup, s: State, att: Attachment, i: nat, tid: string, kernelOk: bool)
    : (State, Option<Tap>)
    requires Usable(u)
  {
    var (table, ip) :=
      if att.address.Some? then (s.table, att.address)
      else if u.plan.Some? && u.staticMode then Assign(u.plan.value, s.table, tid)
      else (s.table, None);
    (s.(table := table), if kernelOk then Some(Tap(TapName(u, tid, i), ip)) else None)
  }

  function StoreTap(s: State, tid: string, tap: Tap): State {
    s.(taps := s.taps[Prefix(tid) + tap.name := tap])
  }

  /** One attachment in PrepareNetwork or prepareNetworkWithCNI. */
  ghost function AttachOne(u: Setup, s: State, tid: string, att: Attachment, i: nat, viaCNI: bool,
                           kernelOk: bool, cni: CniResult): (State, Attachment, bool)
    requires Usable(u)
  {
    if viaCNI && att.address.Some? then
      match cni
      case CniError => (s, att, false)
      case CniEmpty => (s, att, true)
      case CniInterface(name, ip) => (StoreTap(s, tid, Tap(name, Some(ip))), att, true)
    else
      match CreateTap(u, s, att, i, tid, kernelOk)
      case (s1, None) => (s1, att, false)
      case (s1, Some(tap)) => (StoreTap(s1, tid, tap), att.(address := tap.ip), true)
  }

  ghost function AttachFrom(u: Setup, s: State, tid: string, atts: seq<Attachment>, i: nat, viaCNI: bool,
                            kernel: nat -> bool, cni: nat -> CniResult): (State, seq<Attachment>, bool)
    requires Usable(u) && i <= |atts|
    decreases |atts| - i
  {
    if i == |atts| then (s, atts, true)
    else
      var (s1, att, ok) := AttachOne(u, s, tid, atts[i], i, viaCNI, kernel(i), cni(i));
      if ok then AttachFrom(u, s1, tid, atts[i := att], i + 1, viaCNI, kernel, cni) else (s1, atts, false)
  }

  const DEFAULT_NETWORK := Attachment("default", None)

  /** PrepareNetwork, after the bridge is in place. Without attachments a default TAP is made,
      and then made again by the loop over the attachment that was filled in for it. */
  ghost function Prepare(u: Setup, s: State, tid: string, atts: seq<Attachment>, defaultOk: bool,
                         kernel: nat -> bool, cni: nat -> CniResult): (State, seq<Attachment>, bool)
    requires Usable(u)
  {
    if |atts| > 0 then AttachFrom(u, s, tid, atts, 0, u.hasCNI, kernel, cni)
    else
      match CreateTap(u, s, DEFAULT_NETWORK, 0, tid, defaultOk)
      case (s1, None) => (s1, atts, false)
      case (s1, Some(tap)) =>
        AttachFrom(u, StoreTap(s1, tid, tap), tid, [DEFAULT_NETWORK.(address := tap.ip)], 0, false, kernel, cni)
  }

  /** The TAPs whose key starts with the identifier of the task. */
  function Mine(taps: map<string, Tap>, tid: string): set<string> {
    set key | key in taps && Prefix(tid) <= key
  }

  /** The addresses of some TAPs. */
  function Freed(taps: map<string, Tap>, keys: set<string>): set<nat> {
    set key | key in keys && key in taps && taps[key].ip.Some? :: taps[key].ip.value
  }

  /** CleanupNetwork */
  function Cleanup(u: Setup, s: State, tid: string): State {
    var mine := Mine(s.taps, tid);
    State(s.taps - mine, if u.plan.Some? then s.table - Freed(s.taps, mine) else s.table)
  }

  // ----- The object -----

  class Task {
    const ID: string
    var Networks: seq<Attachment>

    constructor (id: string, networks: seq<Attachment>)
      ensures ID == id && Networks == networks
    {
      ID, Networks := id, networks;
    }
  }

  class NetworkManager {
    const setup: Setup
    const ipAllocator: IPAllocator?
    var tapDevices: map<string, Tap>

    constructor (u: Setup)
      requires Usable(u)
      ensures setup == u && Valid() && tapDevices == map[] && (ipAllocator != null ==> fresh(ipAllocator))
    {
      setup := u;
      tapDevices := map[];
      if u.plan.Some? {
        ipAllocator := new IPAllocator(u.plan.value);
      } else {
        ipAllocator := null;
      }
    }

    ghost predicate Valid()
      reads ipAllocator
    {
      && Usable(setup)
      && (setup.plan.Some? <==> ipAllocator != null)
      && (ipAllocator != null ==> ipAllocator.plan == setup.plan.value && OneAddressEach(ipAllocator.table))
    }

    ghost function Contents(): State
      reads this, ipAllocator
    {
      State(tapDevices, if ipAllocator == null then map[] else ipAllocator.table)
    }

    method CreateTapDevice(att: Attachment, index: nat, taskID: string, kernelOk: bool) returns (tap: Option<Tap>)
      requires Valid()
      modifies ipAllocator
      ensures Valid()
      ensures (Contents(), tap) == CreateTap(setup, old(Contents()), att, index, taskID, kernelOk)
    {
      var ip: Option<nat> := None;
      if att.address.Some? {
        ip := att.address;
      } else if ipAllocator != null && setup.staticMode {
        AllocationKeepsOne(ipAllocator.plan, ipAllocator.table, taskID);
        ip := ipAllocator.Allocate(taskID);
      }
      tap := if kernelOk then Some(Tap(TapName(setup, taskID, index), ip)) else None;
    }

    /** One round of either loop over the attachments. */
    method Attach(taskID: string, att: Attachment, i: nat, viaCNI: bool, kernelOk: bool, cni: CniResult)
      returns (filled: Attachment, ok: bool)
      requires Valid()
      modifies this, ipAllocator
      ensures Valid()
      ensures (Contents(), filled, ok) == AttachOne(setup, old(Contents()), taskID, att, i, viaCNI, kernelOk, cni)
    {
      filled, ok := att, true;
      if viaCNI && att.address.Some? {
        match cni
        case CniError => ok := false;
        case CniEmpty =>
        case CniInterface(name, ip) =>
          tapDevices := tapDevices[Prefix(taskID) + name := Tap(name, Some(ip))];
      } else {
        var tap := CreateTapDevice(att, i, taskID, kernelOk);
        if tap.None? {
          ok := false;
        } else {
          tapDevices := tapDevices[Prefix(taskID) + tap.value.name := tap.value];
          filled := att.(address := tap.value.ip);
        }
      }
    }

    method PrepareNetwork(task: Task, defaultOk: bool, kernel: nat -> bool, cni: nat -> CniResult) returns (ok: bool)
      requires Valid()
      modifies this, ipAllocator, task
      ensures Valid()
      ensures (Contents(), task.Networks, ok)
           == Prepare(setup, old(Contents()), task.ID, old(task.Networks), defaultOk, kernel, cni)
    {
      var viaCNI := |task.Networks| > 0 && setup.hasCNI;
      if |task.Networks| == 0 {
        var tap := CreateTapDevice(DEFAULT_NETWORK, 0, task.ID, defaultOk);
        if tap.None? {
          return false;
        }
        tapDevices := tapDevices[Prefix(task.ID) + tap.value.name := tap.value];
        task.Networks := [DEFAULT_NETWORK.(address := tap.value.ip)];
      }
      ghost var goal := AttachFrom(setup, Contents(), task.ID, task.Networks, 0, viaCNI, kernel, cni);
      ghost var n := |task.Networks|;
      for i := 0 to |task.Networks|
        invariant Valid() && |task.Networks| == n
        invariant goal == AttachFrom(setup, Contents(), task.ID, task.Networks, i, viaCNI, kernel, cni)
      {
        var att := task.Networks[i];
        ghost var s := Contents();
        var filled;
        filled, ok := Attach(task.ID, att, i, viaCNI, kernel(i), cni(i));
        if !ok {
          return;
        }
        ghost var t := Contents();
        task.Networks := task.Networks[i := filled];
        assert Contents() == t;
      }
      ok := true;
    }

    method CleanupNetwork(taskID: string)
      requires Valid()
      modifies this, ipAllocator
      ensures Valid()
      ensures Contents() == Cleanup(setup, old(Contents()), taskID)
    {
      ghost var start := Contents();
      var rest := tapDevices.Keys;
      ghost var done: set<string> := {};
      while rest != {}
        invariant Valid() && rest <= start.taps.Keys && done == Mine(start.taps, taskID) - rest
        invariant tapDevices == start.taps - done
        invariant ipAllocator != null ==> ipAllocator.table == start.table - Freed(start.taps, done)
      {
        var key :| key in rest;
        rest := rest - {key};
        if Prefix(taskID) <= key {
          var tap := tapDevices[key];
          if ipAllocator != null && tap.ip.Some? {
            ipAllocator.Release(tap.ip.value);
          }
          tapDevices := tapDevices - {key};
          FreedOneMore(start.taps, done, key);
          done := done + {key};
        }
      }
      assert done == Mine(start.taps, taskID);
    }
  }

  lemma FreedOneMore(taps: map<string, Tap>, keys: set<string>, key: string)
    requires key in taps
    ensures Freed(taps, keys + {key}) ==
            Freed(taps, keys) + (if taps[key].ip.Some? then {taps[key].ip.value} else {})
  {
  }

  /** An assigned address was free or is the one the VM already had; the table stays one
      address each, and no other VM's entry changes. */
  lemma AllocationKeepsOne(p: Plan, t: Table, vm: string)
    requires p.subnet.ones >= 1 && OneAddressEach(t)
    ensures OneAddressEach(Allocated(p, t, vm)) && Assign(p, t, vm).0 == Allocated(p, t, vm)
    ensures match Assign(p, t, vm)
            case (t1, Some(a)) => t1 == t[a := vm] && (if vm in t.Values then a in t && t[a] == vm else a !in t)
            case (t1, None) => t1 == t
  {
    FreeOnly(p, t, HashToIP(p, vm), 256);
    assert forall a | a in t :: t[a] in t.Values;
  }
}

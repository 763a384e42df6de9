/** The VM lifecycle of pkg/lifecycle/vmm.go as a machine of interleaved steps: each GetState
    and each SetState is a step of its own, calls run side by side, and processes exit at any
    moment. The manager's lock is held throughout Start and Remove and only for the lookup in
    Stop and Describe.
 */
module Lifecycle {
  import opened Options

  datatype VMState = New | Starting | Running | Stopping | Stopped | Crashed

  /** A VMInstance and its process. usesInit says that InitSystem is not "none"; killed that
      a SIGKILL has been sent; alive what signal 0 reports. */
  datatype Instance = Instance(state: VMState, usesInit: bool, alive: bool, killed: bool)

  /** Where a call in progress stands; p is the instance it looked up. */
  datatype Call =
    | StopFound(p: nat)
    | StopChecked(p: nat)
    | StopMarked(p: nat)
    | StopDone(p: nat)
    | DescribeFound(p: nat)
    | DescribeDead(p: nat)
    | RemoveFound(p: nat, tid: string)
    | RemoveChecked(p: nat, tid: string)
    | RemoveKilled(p: nat, tid: string)

  /** All instances ever made, the tracked ones, the calls in progress, and the Remove call
      that holds the lock. */
  datatype World = World(insts: map<nat, Instance>, vms: map<string, nat>, calls: map<nat, Call>,
                         remover: Option<nat>)

  datatype Kind = Stop | Describe | Remove

  /** A whole Start; the lookup that begins another call; the next step of a call; a Stop that
      gives up waiting and sends SIGKILL; a process exit. */
  datatype Event =
    | Start(tid: string, p: nat, usesInit: bool, ok: bool)
    | Begin(c: nat, kind: Kind, tid: string)
    | Next(c: nat)
    | GiveUp(c: nat)
    | Exit(p: nat)

  function SetState(w: World, p: nat, s: VMState): World
    requires p in w.insts
  {
    w.(insts := w.insts[p := w.insts[p].(state := s)])
  }

  function Kill(w: World, p: nat): World
    requires p in w.insts
  {
    w.(insts := w.insts[p := w.insts[p].(killed := true)])
  }

  function At(w: World, c: nat, call: Call): World {
    w.(calls := w.calls[c := call])
  }

  function Return(w: World, c: nat): World {
    w.(calls := w.calls - {c})
  }

  /** The states in which Stop and Remove refuse. */
  predicate Transitional(s: VMState) {
    s == Stopping || s == Starting
  }

  /** The world after an event, or None where the event cannot happen. */
  function Apply(w: World, e: Event): Option<World> {
    match e
    case Start(tid, p, usesInit, ok) =>
      if w.remover.Some? || p in w.insts then None
      else if tid in w.vms || !ok then Some(w)
      else Some(w.(insts := w.insts[p := Instance(Running, usesInit, true, false)], vms := w.vms[tid := p]))
    case Begin(c, kind, tid) =>
      if w.remover.Some? || c in w.calls then None
      else if tid !in w.vms then Some(w)
      else Some(Looked(w, c, kind, tid, w.vms[tid]))
    case Next(c) => if c in w.calls && w.calls[c].p in w.insts then Proceed(w, c, w.calls[c]) else None
    case GiveUp(c) =>
      if c in w.calls && w.calls[c].StopMarked? && w.calls[c].p in w.insts
      then Some(Return(Kill(w, w.calls[c].p), c)) else None
    case Exit(p) =>
      if p in w.insts then Some(w.(insts := w.insts[p := w.insts[p].(alive := false)])) else None
  }

  /** After the lookup; Remove keeps the lock. */
  function Looked(w: World, c: nat, kind: Kind, tid: string, p: nat): World {
    match kind
    case Stop => At(w, c, StopFound(p))
    case Describe => At(w, c, DescribeFound(p))
    case Remove => At(w, c, RemoveFound(p, tid)).(remover := Some(c))
  }

  /** The next step of a call in progress. */
  function Proceed(w: World, c: nat, call: Call): Option<World>
    requires call.p in w.insts
  {
    var i := w.insts[call.p];
    match call
    case StopFound(p) => Some(if Transitional(i.state) then Return(w, c) else At(w, c, StopChecked(p)))
    case StopChecked(p) => Some(At(SetState(w, p, Stopping), c, StopMarked(p)))
    // A graceful stop waits for the process; a hard stop for the socket, or its own timeout.
    case StopMarked(p) => if i.usesInit && i.alive then None else Some(At(w, c, StopDone(p)))
    case StopDone(p) => Some(Return(SetState(w, p, Stopped), c))
    case DescribeFound(p) => Some(if i.alive then Return(w, c) else At(w, c, DescribeDead(p)))
    case DescribeDead(p) => Some(Return(SetState(w, p, Stopped), c))
    case RemoveFound(p, tid) =>
      Some(if Transitional(i.state) then Return(w, c).(remover := None) else At(w, c, RemoveChecked(p, tid)))
    case RemoveChecked(p, tid) => Some(At(if i.state == Running then Kill(w, p) else w, c, RemoveKilled(p, tid)))
    case RemoveKilled(p, tid) => Some(Return(w, c).(vms := w.vms - {tid}, remover := None))
  }

  function Run(w: World, es: seq<Event>): Option<World>
    decreases |es|
  {
    if |es| == 0 then Some(w)
    else match Apply(w, es[0])
      case None => None
      case Some(w1) => Run(w1, es[1..])
  }

  const EMPTY := World(map[], map[], map[], None)

  // ----- The invariant -----

  predicate IsRemove(call: Call) {
    call.RemoveFound? || call.RemoveChecked? || call.RemoveKilled?
  }

  predicate Stopper(call: Call, p: nat) {
    call == StopMarked(p) || call == StopDone(p)
  }

  predicate BeingStopped(w: World, p: nat) {
    exists c :: c in w.calls && Stopper(w.calls[c], p)
  }

  /** Nothing is left to do for the process of an instance, or a Stop is still at it. */
  predicate Settled(w: World, p: nat)
    requires p in w.insts
  {
    w.insts[p].killed || !w.insts[p].alive || BeingStopped(w, p)
  }

  /** The only states an instance is ever in. */
  predicate Proper(s: VMState) {
    s == Running || s == Stopping || s == Stopped
  }

  predicate StatesProper(w: World) {
    forall p | p in w.insts :: Proper(w.insts[p].state)
  }

  /** Calls and entries point at instances. */
  predicate Grounded(w: World) {
    && (forall tid | tid in w.vms :: w.vms[tid] in w.insts)
    && (forall c | c in w.calls :: w.calls[c].p in w.insts)
  }

  predicate WellFormed(w: World) {
    StatesProper(w) && Grounded(w)
  }

  /** One Remove at a time. */
  predicate Locked(w: World) {
    && (forall c | c in w.calls :: IsRemove(w.calls[c]) <==> w.remover == Some(c))
    && (w.remover.Some? ==> w.remover.value in w.calls)
  }

  /** A Remove in progress is on a tracked entry; no two entries share an instance. */
  predicate Exclusive(w: World) {
    && (forall c | c in w.calls && IsRemove(w.calls[c]) ::
          w.calls[c].tid in w.vms && w.vms[w.calls[c].tid] == w.calls[c].p)
    && (forall t, u | t in w.vms && u in w.vms && t != u :: w.vms[t] != w.vms[u])
  }

  /** A Stopping instance has been killed or has a Stop at work on it. */
  predicate StoppingAttended(w: World) {
    forall p | p in w.insts && w.insts[p].state == Stopping :: w.insts[p].killed || BeingStopped(w, p)
  }

  /** Where a dead process has been seen, it is dead. */
  predicate DeathsSeen(w: World) {
    forall c | c in w.calls && w.calls[c].p in w.insts :: DeathSeen(w.calls[c], w.insts[w.calls[c].p])
  }

  /** For an instance with an init system a recorded stop is a death. */
  predicate DeathsRecorded(w: World) {
    forall p | p in w.insts && w.insts[p].usesInit && w.insts[p].state == Stopped :: !w.insts[p].alive
  }

  predicate DeathsTrue(w: World) {
    DeathsSeen(w) && DeathsRecorded(w)
  }

  predicate DeathSeen(call: Call, i: Instance) {
    (call.StopDone? && i.usesInit) || call.DescribeDead? ==> !i.alive
  }

  predicate Tracked(w: World, p: nat) {
    exists tid :: tid in w.vms && w.vms[tid] == p
  }

  /** No untracked instance with an init system is left behind. */
  predicate NoneLeaked(w: World) {
    && (forall p | p in w.insts && w.insts[p].usesInit && !Tracked(w, p) :: Settled(w, p))
    && (forall c | c in w.calls && w.calls[c].RemoveKilled? && w.calls[c].p in w.insts
          && w.insts[w.calls[c].p].usesInit :: Settled(w, w.calls[c].p))
  }

  predicate Inv(w: World) {
    WellFormed(w) && Locked(w) && Exclusive(w) && StoppingAttended(w) && DeathsTrue(w) && NoneLeaked(w)
  }

  lemma KeepsWellFormed(w: World, e: Event)
    requires WellFormed(w) && Apply(w, e).Some?
    ensures WellFormed(Apply(w, e).value)
  {
    KeepsStatesProper(w, e);
    KeepsGrounded(w, e);
  }

  lemma KeepsStatesProper(w: World, e: Event)
    requires StatesProper(w) && Apply(w, e).Some?
    ensures StatesProper(Apply(w, e).value)
  {
  }

  lemma KeepsGrounded(w: World, e: Event)
    requires Grounded(w) && Apply(w, e).Some?
    ensures Grounded(Apply(w, e).value)
  {
  }

  lemma KeepsLocked(w: World, e: Event)
    requires Locked(w) && Apply(w, e).Some?
    ensures Locked(Apply(w, e).value)
  {
  }

  lemma KeepsExclusive(w: World, e: Event)
    requires WellFormed(w) && Locked(w) && Exclusive(w) && Apply(w, e).Some?
    ensures Exclusive(Apply(w, e).value)
  {
    if e.Next? && w.calls[e.c].RemoveKilled? {
      assert w.remover == Some(e.c);
    }
  }

  /** Being stopped ends only in a kill or in a recorded stop. */
  lemma StillAttended(w: World, e: Event, p: nat)
    requires WellFormed(w) && Apply(w, e).Some? && p in w.insts && BeingStopped(w, p)
    ensures var w' := Apply(w, e).value;
            p in w'.insts && (BeingStopped(w', p) || w'.insts[p].killed ||
              (e.Next? && e.c in w.calls && w.calls[e.c] == StopDone(p) && w'.insts[p].state == Stopped))
  {
    var w' := Apply(w, e).value;
    var c :| c in w.calls && Stopper(w.calls[c], p);
    if c in w'.calls && Stopper(w'.calls[c], p) {
      assert BeingStopped(w', p);
    }
  }

  lemma KeepsStoppingAttended(w: World, e: Event)
    requires WellFormed(w) && StoppingAttended(w) && Apply(w, e).Some?
    ensures StoppingAttended(Apply(w, e).value)
  {
    var w' := Apply(w, e).value;
    forall p | p in w'.insts && w'.insts[p].state == Stopping
      ensures w'.insts[p].killed || BeingStopped(w', p)
    {
      if p in w.insts && w.insts[p].state == Stopping {
        if BeingStopped(w, p) {
          StillAttended(w, e, p);
        }
      } else {
        assert Stopper(w'.calls[e.c], p);
      }
    }
  }

  lemma KeepsDeathsTrue(w: World, e: Event)
    requires WellFormed(w) && DeathsTrue(w) && Apply(w, e).Some?
    ensures DeathsTrue(Apply(w, e).value)
  {
    KeepsDeathsSeen(w, e);
    KeepsDeathsRecorded(w, e);
  }

  lemma KeepsDeathsSeen(w: World, e: Event)
    requires WellFormed(w) && DeathsSeen(w) && Apply(w, e).Some?
    ensures DeathsSeen(Apply(w, e).value)
  {
    var w' := Apply(w, e).value;
    forall c | c in w'.calls && w'.calls[c].p in w'.insts
      ensures DeathSeen(w'.calls[c], w'.insts[w'.calls[c].p])
    {
      DeathStaysSeen(w, e, c);
    }
  }

  lemma DeathStaysSeen(w: World, e: Event, c: nat)
    requires WellFormed(w) && DeathsSeen(w) && Apply(w, e).Some?
    requires c in Apply(w, e).value.calls && Apply(w, e).value.calls[c].p in Apply(w, e).value.insts
    ensures var w' := Apply(w, e).value; DeathSeen(w'.calls[c], w'.insts[w'.calls[c].p])
  {
    if c in w.calls {
      assert DeathSeen(w.calls[c], w.insts[w.calls[c].p]);
    }
  }

  lemma KeepsDeathsRecorded(w: World, e: Event)
    requires WellFormed(w) && DeathsTrue(w) && Apply(w, e).Some?
    ensures DeathsRecorded(Apply(w, e).value)
  {
  }

  lemma KeepsSettled(w: World, e: Event, p: nat)
    requires WellFormed(w) && DeathsTrue(w) && Apply(w, e).Some?
    requires p in w.insts && w.insts[p].usesInit && Settled(w, p)
    ensures p in Apply(w, e).value.insts && Settled(Apply(w, e).value, p)
  {
    if BeingStopped(w, p) {
      StillAttended(w, e, p);
    }
  }

  lemma KeepsNoneLeaked(w: World, e: Event)
    requires Inv(w) && Apply(w, e).Some?
    ensures NoneLeaked(Apply(w, e).value)
  {
    var w' := Apply(w, e).value;
    forall p | p in w'.insts && w'.insts[p].usesInit && !Tracked(w', p)
      ensures Settled(w', p)
    {
      UntrackedSettled(w, e, p);
    }
    forall c | c in w'.calls && w'.calls[c].RemoveKilled? && w'.calls[c].p in w'.insts
      && w'.insts[w'.calls[c].p].usesInit
      ensures Settled(w', w'.calls[c].p)
    {
      KilledSettled(w, e, c);
    }
  }

  lemma KilledSettled(w: World, e: Event, c: nat)
    requires Inv(w) && Apply(w, e).Some?
    requires var w' := Apply(w, e).value;
             c in w'.calls && w'.calls[c].RemoveKilled? && w'.calls[c].p in w'.insts && w'.insts[w'.calls[c].p].usesInit
    ensures Settled(Apply(w, e).value, Apply(w, e).value.calls[c].p)
  {
    var p := Apply(w, e).value.calls[c].p;
    KilledOrigin(w, e, c);
    if c in w.calls && w.calls[c].RemoveKilled? {
      KeepsSettled(w, e, p);
    } else {
      RemoveKillSettles(w, e, c, p);
    }
  }

  lemma KilledOrigin(w: World, e: Event, c: nat)
    requires Apply(w, e).Some? && c in Apply(w, e).value.calls && Apply(w, e).value.calls[c].RemoveKilled?
    ensures c in w.calls && w.calls[c].p == Apply(w, e).value.calls[c].p
    ensures w.calls[c].p in Apply(w, e).value.insts && w.calls[c].p in w.insts ==>
              Apply(w, e).value.insts[w.calls[c].p].usesInit == w.insts[w.calls[c].p].usesInit
    ensures w.calls[c].RemoveKilled? || (e == Next(c) && w.calls[c].RemoveChecked?)
  {
  }

  lemma UntrackedSettled(w: World, e: Event, p: nat)
    requires Inv(w) && Apply(w, e).Some?
    requires var w' := Apply(w, e).value; p in w'.insts && w'.insts[p].usesInit && !Tracked(w', p)
    ensures Settled(Apply(w, e).value, p)
  {
    UntrackedOrigin(w, e, p);
    KeepsSettled(w, e, p);
  }

  /** An untracked instance was untracked before, or a Remove past its kill has just deleted it. */
  lemma UntrackedOrigin(w: World, e: Event, p: nat)
    requires Exclusive(w) && Apply(w, e).Some? && p in Apply(w, e).value.insts && !Tracked(Apply(w, e).value, p)
    ensures p in w.insts && Apply(w, e).value.insts[p].usesInit == w.insts[p].usesInit
    ensures Tracked(w, p) ==> exists c :: c in w.calls && w.calls[c].RemoveKilled? && w.calls[c].p == p
  {
    var w' := Apply(w, e).value;
    if p !in w.insts {
      NewIsTracked(w, e, p);
      assert false;
    } else if tid :| tid in w.vms && w.vms[tid] == p {
      assert tid !in w'.vms;
      assert w.calls[e.c] == RemoveKilled(p, tid);
    }
  }

  lemma NewIsTracked(w: World, e: Event, p: nat)
    requires Apply(w, e).Some? && p !in w.insts && p in Apply(w, e).value.insts
    ensures Tracked(Apply(w, e).value, p)
  {
    assert Apply(w, e).value.vms[e.tid] == p;
  }

  lemma RemoveKillSettles(w: World, e: Event, c: nat, p: nat)
    requires Inv(w) && e == Next(c) && Apply(w, e).Some?
    requires c in w.calls && w.calls[c].RemoveChecked? && w.calls[c].p == p && w.insts[p].usesInit
    ensures p in Apply(w, e).value.insts && Settled(Apply(w, e).value, p)
  {
    if w.insts[p].state == Stopping && BeingStopped(w, p) {
      StillAttended(w, e, p);
    }
  }

  /** Over every interleaving of calls and process exits: tracked VMs are Running, Stopping or
      Stopped; a Stopping VM has been killed or is being stopped; with an init system a Stopped
      VM is dead; and no VM with an init system leaves the map unattended. */
  lemma {:induction false} RunsKeepInv(w: World, es: seq<Event>)
    requires Inv(w) && Run(w, es).Some?
    ensures Inv(Run(w, es).value)
    decreases |es|
  {
    if |es| > 0 {
      KeepsWellFormed(w, es[0]);
      KeepsLocked(w, es[0]);
      KeepsExclusive(w, es[0]);
      KeepsStoppingAttended(w, es[0]);
      KeepsDeathsTrue(w, es[0]);
      KeepsNoneLeaked(w, es[0]);
      RunsKeepInv(Apply(w, es[0]).value, es[1..]);
    }
  }

  lemma Reachable(es: seq<Event>)
    requires Run(EMPTY, es).Some?
    ensures Inv(Run(EMPTY, es).value)
  {
    RunsKeepInv(EMPTY, es);
  }

  // ----- Single calls -----

  /** A Stop or a Remove that finds a Stopping VM changes nothing at all. */
  lemma StoppingRefused(w: World, c: nat, tid: string)
    requires w.remover.None? && c !in w.calls && tid in w.vms && w.vms[tid] in w.insts
    requires w.insts[w.vms[tid]].state == Stopping
    ensures Run(w, [Begin(c, Stop, tid), Next(c)]) == Some(w)
    ensures Run(w, [Begin(c, Remove, tid), Next(c)]) == Some(w)
  {
    var p := w.vms[tid];
    var s, r := At(w, c, StopFound(p)), At(w, c, RemoveFound(p, tid)).(remover := Some(c));
    assert Return(s, c) == w && Return(r, c).(remover := None) == w;
    RunTwo(w, Begin(c, Stop, tid), Next(c));
    RunTwo(w, Begin(c, Remove, tid), Next(c));
  }

  lemma RunOne(w: World, e: Event)
    ensures Run(w, [e]) == Apply(w, e)
  {
    assert [e][1..] == [];
    assert Apply(w, e).Some? ==> Run(Apply(w, e).value, []) == Apply(w, e);
  }

  lemma RunTwo(w: World, e: Event, f: Event)
    requires Apply(w, e).Some?
    ensures Run(w, [e, f]) == Apply(Apply(w, e).value, f)
  {
    var w1 := Apply(w, e).value;
    assert [e, f][1..] == [f] && [f][1..] == [];
    assert Apply(w1, f).Some? ==> Run(Apply(w1, f).value, []) == Apply(w1, f);
    assert Run(w1, [f]) == Apply(w1, f);
  }

  /** A run through known worlds. */
  lemma {:induction false} RunThrough(ws: seq<World>, es: seq<Event>)
    requires |ws| == |es| + 1
    requires forall i | 0 <= i < |es| :: Apply(ws[i], es[i]) == Some(ws[i + 1])
    ensures Run(ws[0], es) == Some(ws[|es|])
    decreases |es|
  {
    if |es| > 0 {
      RunThrough(ws[1..], es[1..]);
    }
  }

  lemma {:induction false} RunConcat(w: World, a: seq<Event>, b: seq<Event>)
    requires Run(w, a).Some?
    ensures Run(w, a + b) == Run(Run(w, a).value, b)
    decreases |a|
  {
    if |a| == 0 {
      assert a + b == b;
    } else {
      assert (a + b)[1..] == a[1..] + b;
      RunConcat(Apply(w, a[0]).value, a[1..], b);
    }
  }

  function DescribeSteps(c: nat, tid: string): seq<Event> {
    [Begin(c, Describe, tid), Next(c), Next(c)]
  }

  function RemoveSteps(c: nat, tid: string): seq<Event> {
    [Begin(c, Remove, tid), Next(c), Next(c), Next(c)]
  }

  predicate Idle(w: World, c: nat, tid: string) {
    w.remover.None? && c !in w.calls && tid in w.vms && w.vms[tid] in w.insts
  }

  lemma DescribeRecordsDeath(w: World, c: nat, tid: string)
    requires Idle(w, c, tid) && !w.insts[w.vms[tid]].alive
    ensures Run(w, DescribeSteps(c, tid)) == Some(SetState(w, w.vms[tid], Stopped))
  {
    var p := w.vms[tid];
    var w1 := At(w, c, DescribeFound(p));
    var w2 := At(w1, c, DescribeDead(p));
    var w3 := SetState(w, p, Stopped);
    assert Return(SetState(w2, p, Stopped), c) == w3;
    RunThrough([w, w1, w2, w3], DescribeSteps(c, tid));
  }

  /** Describe of a VM whose process is alive changes nothing. */
  lemma DescribeLive(w: World, c: nat, tid: string)
    requires Idle(w, c, tid) && w.insts[w.vms[tid]].alive
    ensures Run(w, [Begin(c, Describe, tid), Next(c)]) == Some(w)
  {
    assert Return(At(w, c, DescribeFound(w.vms[tid])), c) == w;
    RunTwo(w, Begin(c, Describe, tid), Next(c));
  }

  /** Stop, Describe and Remove of an unknown VM change nothing; neither does Start of a known one
      or one that fails. A Start that succeeds tracks a new running instance that is alive. */
  lemma LookupsAndStart(w: World, c: nat, kind: Kind, tid: string, p: nat, usesInit: bool, ok: bool)
    requires w.remover.None? && c !in w.calls && p !in w.insts
    ensures tid !in w.vms ==> Apply(w, Begin(c, kind, tid)) == Some(w)
    ensures tid in w.vms || !ok ==> Apply(w, Start(tid, p, usesInit, ok)) == Some(w)
    ensures tid !in w.vms && ok ==>
              Apply(w, Start(tid, p, usesInit, true)) ==
              Some(w.(insts := w.insts[p := Instance(Running, usesInit, true, false)], vms := w.vms[tid := p]))
  {
  }

  /** While a Remove holds the lock, no call looks a VM up and none is started. */
  lemma LockBlocks(w: World, c: nat, kind: Kind, tid: string, p: nat, usesInit: bool, ok: bool)
    requires w.remover.Some?
    ensures Apply(w, Begin(c, kind, tid)).None? && Apply(w, Start(tid, p, usesInit, ok)).None?
  {
  }

  /** A Stop of a Running VM marks it Stopping, and once the process has exited records it as
      Stopped; with an init system it records nothing before that. */
  lemma StopRecordsExit(w: World, c: nat, tid: string)
    requires Idle(w, c, tid) && w.insts[w.vms[tid]].state == Running && w.insts[w.vms[tid]].alive
    ensures var p := w.vms[tid];
            var marked := At(SetState(w, p, Stopping), c, StopMarked(p));
            && Run(w, [Begin(c, Stop, tid), Next(c), Next(c)]) == Some(marked)
            && (Apply(marked, Next(c)).None? <==> w.insts[p].usesInit)
            && Run(marked, [Exit(p), Next(c), Next(c)])
               == Some(w.(insts := w.insts[p := w.insts[p].(state := Stopped, alive := false)]))
  {
    var p := w.vms[tid];
    var w1, w2 := At(w, c, StopFound(p)), At(w, c, StopChecked(p));
    var w3 := At(SetState(w, p, Stopping), c, StopMarked(p));
    assert At(w1, c, StopChecked(p)) == w2 && At(SetState(w2, p, Stopping), c, StopMarked(p)) == w3;
    RunThrough([w, w1, w2, w3], [Begin(c, Stop, tid), Next(c), Next(c)]);
    ExitIsRecorded(w3, c, p);
    assert Return(SetState(w3.(insts := w3.insts[p := w3.insts[p].(alive := false)]), p, Stopped), c)
        == w.(insts := w.insts[p := w.insts[p].(state := Stopped, alive := false)]);
  }

  lemma ExitIsRecorded(w: World, c: nat, p: nat)
    requires c in w.calls && w.calls[c] == StopMarked(p) && p in w.insts
    ensures var dead := w.(insts := w.insts[p := w.insts[p].(alive := false)]);
            Run(w, [Exit(p), Next(c), Next(c)]) == Some(Return(SetState(dead, p, Stopped), c))
  {
    var w1 := w.(insts := w.insts[p := w.insts[p].(alive := false)]);
    var w2 := At(w1, c, StopDone(p));
    var w3 := Return(SetState(w2, p, Stopped), c);
    assert Return(SetState(w1, p, Stopped), c) == w3;
    RunOne(w, Exit(p));
    RunTwo(w1, Next(c), Next(c));
    RunConcat(w, [Exit(p)], [Next(c), Next(c)]);
    assert [Exit(p)] + [Next(c), Next(c)] == [Exit(p), Next(c), Next(c)];
  }

  /** Remove of a Running VM, with or without an init system, kills its process and deletes its
      entry. */
  lemma RemoveKillsRunning(w: World, c: nat, tid: string)
    requires Idle(w, c, tid) && w.insts[w.vms[tid]].state == Running
    ensures Run(w, RemoveSteps(c, tid)) == Some(Kill(w, w.vms[tid]).(vms := w.vms - {tid}))
  {
    var p := w.vms[tid];
    var w1 := At(w, c, RemoveFound(p, tid)).(remover := Some(c));
    var w2 := At(w1, c, RemoveChecked(p, tid));
    var w3 := At(Kill(w2, p), c, RemoveKilled(p, tid));
    var w4 := Kill(w, p).(vms := w.vms - {tid});
    assert At(w1, c, RemoveChecked(p, tid)) == w2;
    RunTwo(w, Begin(c, Remove, tid), Next(c));
    KillAndDelete(w2, c, p, tid);
    assert Return(w3, c).(vms := w3.vms - {tid}, remover := None) == w4;
    RunConcat(w, [Begin(c, Remove, tid), Next(c)], [Next(c), Next(c)]);
    assert [Begin(c, Remove, tid), Next(c)] + [Next(c), Next(c)] == RemoveSteps(c, tid);
  }

  lemma KillAndDelete(w: World, c: nat, p: nat, tid: string)
    requires c in w.calls && w.calls[c] == RemoveChecked(p, tid) && p in w.insts && w.insts[p].state == Running
    ensures var w1 := At(Kill(w, p), c, RemoveKilled(p, tid));
            Run(w, [Next(c), Next(c)]) == Some(Return(w1, c).(vms := w.vms - {tid}, remover := None))
  {
    RunTwo(w, Next(c), Next(c));
  }

  lemma RemoveTakesStopped(w: World, c: nat, tid: string)
    requires Idle(w, c, tid) && w.insts[w.vms[tid]].state == Stopped
    ensures Run(w, RemoveSteps(c, tid)) == Some(w.(vms := w.vms - {tid}))
  {
    var p := w.vms[tid];
    var w1 := At(w, c, RemoveFound(p, tid)).(remover := Some(c));
    var w2 := At(w1, c, RemoveChecked(p, tid));
    var w3 := At(w2, c, RemoveKilled(p, tid));
    var w4 := w.(vms := w.vms - {tid});
    assert Return(w3, c).(vms := w3.vms - {tid}, remover := None) == w4;
    RunThrough([w, w1, w2, w3, w4], RemoveSteps(c, tid));
  }

  /** Once the process is dead, Describe and then Remove, with nothing in between, always
      removes the VM, whatever its state was, and no other. */
  lemma DescribeThenRemove(w: World, c: nat, tid: string)
    requires Idle(w, c, tid) && !w.insts[w.vms[tid]].alive
    ensures Run(w, DescribeSteps(c, tid) + RemoveSteps(c, tid))
         == Some(SetState(w, w.vms[tid], Stopped).(vms := w.vms - {tid}))
  {
    DescribeRecordsDeath(w, c, tid);
    RunConcat(w, DescribeSteps(c, tid), RemoveSteps(c, tid));
    RemoveTakesStopped(SetState(w, w.vms[tid], Stopped), c, tid);
  }

  // ----- What Remove leaves behind -----

  /** The worlds a run passes through, starting from an empty manager. */
  predicate IsTrace(ws: seq<World>, es: seq<Event>) {
    && |ws| == |es| + 1 && ws[0] == EMPTY
    && forall i | 0 <= i < |es| :: Apply(ws[i], es[i]) == Some(ws[i + 1])
  }

  /** In step k a Remove came to the instance: it found it Running, and it has been killed by
      moment n, or it found it Stopping or Stopped. */
  predicate RemoveCame(ws: seq<World>, es: seq<Event>, n: nat, p: nat, k: nat)
    requires |ws| == |es| + 1 && n < |ws|
  {
    && k < n && es[k].Next? && es[k].c in ws[k].calls && ws[k].calls[es[k].c].RemoveChecked?
    && ws[k].calls[es[k].c].p == p && p in ws[k].insts && p in ws[n].insts
    && (if ws[k].insts[p].state == Running then ws[n].insts[p].killed
        else ws[k].insts[p].state == Stopping || ws[k].insts[p].state == Stopped)
  }

  ghost predicate SomeRemoveCame(ws: seq<World>, es: seq<Event>, n: nat, p: nat)
    requires |ws| == |es| + 1 && n < |ws|
  {
    exists k :: RemoveCame(ws, es, n, p, k)
  }

  /** Over every run, a VM that is no longer tracked has been killed by the Remove that found it
      Running, or was Stopping or Stopped when the Remove came to it; with an init system or
      without. HardStopCanLeak and DeletedStoppingIsReached show that in both other cases its
      process can be alive and not killed. */
  lemma UntrackedWasRemoved(ws: seq<World>, es: seq<Event>, n: nat, p: nat)
    requires IsTrace(ws, es) && n < |ws| && p in ws[n].insts && !Tracked(ws[n], p)
    ensures SomeRemoveCame(ws, es, n, p)
  {
    AllRemovesCame(ws, es, n);
  }

  lemma {:induction false} AllRemovesCame(ws: seq<World>, es: seq<Event>, n: nat)
    requires IsTrace(ws, es) && n < |ws|
    ensures Inv(ws[n])
    ensures forall c | c in ws[n].calls && ws[n].calls[c].RemoveKilled? :: SomeRemoveCame(ws, es, n, ws[n].calls[c].p)
    ensures forall p | p in ws[n].insts && !Tracked(ws[n], p) :: SomeRemoveCame(ws, es, n, p)
  {
    if n > 0 {
      var m := n - 1;
      AllRemovesCame(ws, es, m);
      assert Apply(ws[m], es[m]) == Some(ws[m + 1]);
      RunOne(ws[m], es[m]);
      RunsKeepInv(ws[m], [es[m]]);
      forall c | c in ws[n].calls && ws[n].calls[c].RemoveKilled?
        ensures SomeRemoveCame(ws, es, n, ws[n].calls[c].p)
      {
        KilledCame(ws, es, m, c);
      }
      forall p | p in ws[n].insts && !Tracked(ws[n], p)
        ensures SomeRemoveCame(ws, es, n, p)
      {
        UntrackedOrigin(ws[m], es[m], p);
        CameStays(ws, es, m, p);
      }
    }
  }

  lemma CameStays(ws: seq<World>, es: seq<Event>, m: nat, p: nat)
    requires IsTrace(ws, es) && m < |es| && SomeRemoveCame(ws, es, m, p)
    ensures SomeRemoveCame(ws, es, m + 1, p)
  {
    var k :| RemoveCame(ws, es, m, p, k);
    assert Apply(ws[m], es[m]) == Some(ws[m + 1]);
    KillStays(ws[m], es[m], p);
    assert RemoveCame(ws, es, m + 1, p, k);
  }

  lemma KillStays(w: World, e: Event, p: nat)
    requires Apply(w, e).Some? && p in w.insts
    ensures p in Apply(w, e).value.insts && (w.insts[p].killed ==> Apply(w, e).value.insts[p].killed)
  {
  }

  lemma KilledCame(ws: seq<World>, es: seq<Event>, m: nat, c: nat)
    requires IsTrace(ws, es) && m < |es| && WellFormed(ws[m])
    requires c in ws[m + 1].calls && ws[m + 1].calls[c].RemoveKilled?
    requires forall d | d in ws[m].calls && ws[m].calls[d].RemoveKilled? :: SomeRemoveCame(ws, es, m, ws[m].calls[d].p)
    ensures SomeRemoveCame(ws, es, m + 1, ws[m + 1].calls[c].p)
  {
    var p := ws[m + 1].calls[c].p;
    assert Apply(ws[m], es[m]) == Some(ws[m + 1]);
    KilledOrigin(ws[m], es[m], c);
    if ws[m].calls[c].RemoveKilled? {
      CameStays(ws, es, m, p);
    } else {
      CheckedKills(ws[m], c, p);
      assert RemoveCame(ws, es, m + 1, p, m);
    }
  }

  /** The step of Remove that looks at the state again kills a Running VM, and no other. */
  lemma CheckedKills(w: World, c: nat, p: nat)
    requires c in w.calls && w.calls[c].RemoveChecked? && w.calls[c].p == p && p in w.insts
    ensures Apply(w, Next(c)).Some? && p in Apply(w, Next(c)).value.insts
    ensures Apply(w, Next(c)).value.insts[p].killed <==> w.insts[p].killed || w.insts[p].state == Running
  {
  }

  // ----- A VM killed while Stopping -----

  /** A call that is past the checks a Stopping instance would fail, or can record a stop. */
  predicate Recorder(call: Call, p: nat) {
    call.p == p && !call.StopFound? && !call.RemoveFound?
  }

  /** Stopping, with no Stop or Describe at work on it, and no Remove past its check. */
  predicate Stuck(w: World, tid: string) {
    && tid in w.vms && w.vms[tid] in w.insts && w.insts[w.vms[tid]].state == Stopping
    && forall c | c in w.calls :: !Recorder(w.calls[c], w.vms[tid])
  }

  /** A forced kill leaves the state at Stopping, and only Describe leads out: without a new
      Describe of this VM it stays in the map through every run, and every Remove is refused. */
  lemma {:induction false} StuckUntilDescribed(w: World, es: seq<Event>, tid: string)
    requires WellFormed(w) && Locked(w) && Exclusive(w) && Stuck(w, tid) && Run(w, es).Some?
    requires forall i | 0 <= i < |es| :: !Describes(es[i], tid)
    ensures var w' := Run(w, es).value; Stuck(w', tid) && w'.vms[tid] == w.vms[tid]
    decreases |es|
  {
    if |es| > 0 {
      KeepsWellFormed(w, es[0]);
      KeepsLocked(w, es[0]);
      KeepsExclusive(w, es[0]);
      StuckStep(w, es[0], tid);
      StuckUntilDescribed(Apply(w, es[0]).value, es[1..], tid);
    }
  }

  predicate Describes(e: Event, tid: string) {
    e.Begin? && e.kind == Describe && e.tid == tid
  }

  lemma StuckStep(w: World, e: Event, tid: string)
    requires WellFormed(w) && Exclusive(w) && Stuck(w, tid) && Apply(w, e).Some? && !Describes(e, tid)
    ensures Stuck(Apply(w, e).value, tid) && Apply(w, e).value.vms[tid] == w.vms[tid]
  {
    StuckEntryStays(w, e, tid);
    var w', p := Apply(w, e).value, w.vms[tid];
    forall c | c in w'.calls
      ensures !Recorder(w'.calls[c], p)
    {
      StuckCallsStay(w, e, tid, c);
    }
  }

  lemma StuckEntryStays(w: World, e: Event, tid: string)
    requires WellFormed(w) && Exclusive(w) && Stuck(w, tid) && Apply(w, e).Some?
    ensures var w' := Apply(w, e).value;
            tid in w'.vms && w'.vms[tid] == w.vms[tid] && w.vms[tid] in w'.insts && w'.insts[w.vms[tid]].state == Stopping
  {
    var p := w.vms[tid];
    assert forall c | c in w.calls :: !Recorder(w.calls[c], p);
  }

  lemma StuckCallsStay(w: World, e: Event, tid: string, c: nat)
    requires WellFormed(w) && Exclusive(w) && Stuck(w, tid) && Apply(w, e).Some? && !Describes(e, tid)
    requires c in Apply(w, e).value.calls
    ensures !Recorder(Apply(w, e).value.calls[c], w.vms[tid])
  {
    if c in w.calls {
      assert !Recorder(w.calls[c], w.vms[tid]);
    }
  }

  /** A Stop that gives up waiting leaves its VM stuck when no other call is about to record
      its end. */
  lemma GiveUpSticks(w: World, c: nat, tid: string)
    requires WellFormed(w) && tid in w.vms && w.vms[tid] in w.insts && w.insts[w.vms[tid]].state == Stopping
    requires c in w.calls && w.calls[c] == StopMarked(w.vms[tid])
    requires forall d | d in w.calls && d != c :: !Recorder(w.calls[d], w.vms[tid])
    ensures var r := Apply(w, GiveUp(c));
            r.Some? && Stuck(r.value, tid) && r.value.vms == w.vms && r.value.insts[w.vms[tid]].killed
  {
  }

  /** One VM, running. */
  function OneVM(tid: string, usesInit: bool, calls: map<nat, Call>): World {
    World(map[0 := Instance(Running, usesInit, true, false)], map[tid := 0], calls, None)
  }

  function StopChecks(tid: string, usesInit: bool): seq<Event> {
    [Start(tid, 0, usesInit, true), Begin(1, Stop, tid), Next(1)]
  }

  /** A run in which the only Stop of the only VM has passed its check. */
  lemma StopCheckedIsReached(tid: string, usesInit: bool)
    ensures Run(EMPTY, StopChecks(tid, usesInit)) == Some(OneVM(tid, usesInit, map[1 := StopChecked(0)]))
  {
    var w2, w3 := OneVM(tid, usesInit, map[1 := StopFound(0)]), OneVM(tid, usesInit, map[1 := StopChecked(0)]);
    assert At(w2, 1, StopChecked(0)) == w3;
    RunThrough([EMPTY, OneVM(tid, usesInit, map[]), w2, w3], StopChecks(tid, usesInit));
  }

  /** A run that ends so: the only Stop of the only VM gives up. */
  lemma StuckIsReached(tid: string, usesInit: bool)
    ensures var r := Run(EMPTY, StopChecks(tid, usesInit) + [Next(1), GiveUp(1)]);
            r.Some? && Inv(r.value) && Stuck(r.value, tid)
  {
    var w3 := OneVM(tid, usesInit, map[1 := StopChecked(0)]);
    StopCheckedIsReached(tid, usesInit);
    RunConcat(EMPTY, StopChecks(tid, usesInit), [Next(1), GiveUp(1)]);
    RunTwo(w3, Next(1), GiveUp(1));
    GiveUpSticks(At(SetState(w3, 0, Stopping), 1, StopMarked(0)), 1, tid);
    Reachable(StopChecks(tid, usesInit) + [Next(1), GiveUp(1)]);
  }

  // ----- What interleaving can break -----

  /** A Stop call at work on p, wherever it stands. */
  predicate StopCall(call: Call, p: nat) {
    Marker(call, p) || Stopper(call, p)
  }

  /** A Stop that could still mark p. */
  predicate Marker(call: Call, p: nat) {
    call == StopFound(p) || call == StopChecked(p)
  }

  predicate TwoStopCalls(w: World, p: nat) {
    exists c, d :: c in w.calls && d in w.calls && c != d && StopCall(w.calls[c], p) && StopCall(w.calls[d], p)
  }

  /** Two Stop calls have both passed the guard and are stopping p. */
  predicate TwoStopping(w: World, p: nat) {
    exists c, d :: c in w.calls && d in w.calls && c != d && Stopper(w.calls[c], p) && Stopper(w.calls[d], p)
  }

  predicate NoNewCalls(es: seq<Event>) {
    forall i | 0 <= i < |es| :: !es[i].Begin?
  }

  /** The guard against concurrent stops is a check and a set apart. It fails exactly when it is
      needed: while p is neither Stopping nor Starting, the calls in progress can lead to two
      Stops at work on p if and only if two Stop calls are in progress on p. */
  lemma StopsOverlapIff(w: World, p: nat)
    requires WellFormed(w) && p in w.insts && !Transitional(w.insts[p].state)
    ensures (exists es: seq<Event> :: NoNewCalls(es) && Run(w, es).Some? && TwoStopping(Run(w, es).value, p))
            <==> TwoStopCalls(w, p)
  {
    if es: seq<Event> :| NoNewCalls(es) && Run(w, es).Some? && TwoStopping(Run(w, es).value, p) {
      var w' := Run(w, es).value;
      var c, d :| c in w'.calls && d in w'.calls && c != d && Stopper(w'.calls[c], p) && Stopper(w'.calls[d], p);
      StopCallsAreOld(w, es, c, p);
      StopCallsAreOld(w, es, d, p);
    }
    if TwoStopCalls(w, p) {
      var c, d :| c in w.calls && d in w.calls && c != d && StopCall(w.calls[c], p) && StopCall(w.calls[d], p);
      BothPass(w, c, d, p);
    }
  }

  lemma {:induction false} StopCallsAreOld(w: World, es: seq<Event>, c: nat, p: nat)
    requires NoNewCalls(es) && Run(w, es).Some?
    requires c in Run(w, es).value.calls && StopCall(Run(w, es).value.calls[c], p)
    ensures c in w.calls && StopCall(w.calls[c], p)
    decreases |es|
  {
    if |es| > 0 {
      StopCallsAreOld(Apply(w, es[0]).value, es[1..], c, p);
    }
  }

  function ToGuard(w: World, c: nat): seq<Event> {
    if c in w.calls && w.calls[c].StopFound? then [Next(c)] else []
  }

  function PastGuard(w: World, c: nat, p: nat): World {
    if c in w.calls && w.calls[c] == StopFound(p) then At(w, c, StopChecked(p)) else w
  }

  function ToMark(w: World, c: nat): seq<Event> {
    if c in w.calls && w.calls[c].StopChecked? then [Next(c)] else []
  }

  function Marked(w: World, c: nat, p: nat): World
    requires p in w.insts
  {
    if c in w.calls && w.calls[c] == StopChecked(p) then At(SetState(w, p, Stopping), c, StopMarked(p)) else w
  }

  lemma PassesGuard(w: World, c: nat, p: nat)
    requires p in w.insts && !Transitional(w.insts[p].state) && c in w.calls && StopCall(w.calls[c], p)
    ensures Run(w, ToGuard(w, c)) == Some(PastGuard(w, c, p))
  {
    RunOne(w, Next(c));
  }

  lemma Marks(w: World, c: nat, p: nat)
    requires p in w.insts && c in w.calls && StopCall(w.calls[c], p)
    ensures Run(w, ToMark(w, c)) == Some(Marked(w, c, p))
  {
    RunOne(w, Next(c));
  }

  lemma BothPass(w: World, c: nat, d: nat, p: nat)
    requires p in w.insts && !Transitional(w.insts[p].state)
    requires c in w.calls && d in w.calls && c != d && StopCall(w.calls[c], p) && StopCall(w.calls[d], p)
    ensures exists es: seq<Event> :: NoNewCalls(es) && Run(w, es).Some? && TwoStopping(Run(w, es).value, p)
  {
    BothPassGuard(w, c, d, p);
    var a: seq<Event>, w2: World :| NoNewCalls(a) && Run(w, a) == Some(w2) && AtMark(w2, c, p) && AtMark(w2, d, p);
    BothMark(w2, c, d, p);
    var b: seq<Event> :| NoNewCalls(b) && Run(w2, b).Some? && TwoStopping(Run(w2, b).value, p);
    RunConcat(w, a, b);
    assert NoNewCalls(a + b) && Run(w, a + b) == Run(w2, b);
  }

  /** The call has passed the guard. */
  predicate AtMark(w: World, c: nat, p: nat) {
    p in w.insts && c in w.calls && StopCall(w.calls[c], p) && !w.calls[c].StopFound?
  }

  lemma BothPassGuard(w: World, c: nat, d: nat, p: nat)
    requires p in w.insts && !Transitional(w.insts[p].state)
    requires c in w.calls && d in w.calls && c != d && StopCall(w.calls[c], p) && StopCall(w.calls[d], p)
    ensures exists es: seq<Event>, w': World ::
              NoNewCalls(es) && Run(w, es) == Some(w') && AtMark(w', c, p) && AtMark(w', d, p)
  {
    var w1 := PastGuard(w, c, p);
    var w2 := PastGuard(w1, d, p);
    PassesGuard(w, c, p);
    PassesGuard(w1, d, p);
    RunConcat(w, ToGuard(w, c), ToGuard(w1, d));
    var es := ToGuard(w, c) + ToGuard(w1, d);
    assert NoNewCalls(es) && Run(w, es) == Some(w2) && AtMark(w2, c, p) && AtMark(w2, d, p);
  }

  lemma BothMark(w: World, c: nat, d: nat, p: nat)
    requires AtMark(w, c, p) && AtMark(w, d, p) && c != d
    ensures exists es: seq<Event> :: NoNewCalls(es) && Run(w, es).Some? && TwoStopping(Run(w, es).value, p)
  {
    var w1 := Marked(w, c, p);
    var w2 := Marked(w1, d, p);
    Marks(w, c, p);
    Marks(w1, d, p);
    RunConcat(w, ToMark(w, c), ToMark(w1, d));
    var es := ToMark(w, c) + ToMark(w1, d);
    assert Stopper(w2.calls[c], p) && Stopper(w2.calls[d], p);
    assert NoNewCalls(es) && Run(w, es) == Some(w2);
  }

  /** A run that ends with two Stops at work on one VM. */
  lemma TwoStopsAreReached(tid: string, usesInit: bool)
    ensures var r := Run(EMPTY, [Start(tid, 0, usesInit, true), Begin(1, Stop, tid), Begin(2, Stop, tid)]
                                + [Next(1), Next(2), Next(1), Next(2)]);
            r.Some? && TwoStopping(r.value, 0)
  {
    var w3 := OneVM(tid, usesInit, map[1 := StopFound(0), 2 := StopFound(0)]);
    var es := [Start(tid, 0, usesInit, true), Begin(1, Stop, tid), Begin(2, Stop, tid)];
    RunThrough([EMPTY, OneVM(tid, usesInit, map[]), OneVM(tid, usesInit, map[1 := StopFound(0)]), w3], es);
    RunConcat(EMPTY, es, [Next(1), Next(2), Next(1), Next(2)]);
    TwoFoundPass(w3, 1, 2, 0);
  }

  lemma TwoFoundPass(w: World, c: nat, d: nat, p: nat)
    requires c != d && c in w.calls && d in w.calls && w.calls[c] == StopFound(p) && w.calls[d] == StopFound(p)
    requires p in w.insts && w.insts[p].state == Running
    ensures var r := Run(w, [Next(c), Next(d), Next(c), Next(d)]); r.Some? && TwoStopping(r.value, p)
  {
    var w1 := At(w, c, StopChecked(p));
    var w2 := At(w1, d, StopChecked(p));
    var w3 := At(SetState(w2, p, Stopping), c, StopMarked(p));
    var w4 := At(SetState(w3, p, Stopping), d, StopMarked(p));
    RunThrough([w, w1, w2, w3, w4], [Next(c), Next(d), Next(c), Next(d)]);
    assert Stopper(w4.calls[c], p) && Stopper(w4.calls[d], p);
  }

  /** Every event of a run happens while call c holds the lock. */
  predicate UnderLock(w: World, es: seq<Event>, c: nat)
    decreases |es|
  {
    && w.remover == Some(c)
    && (|es| > 0 ==> Apply(w, es[0]).Some? && UnderLock(Apply(w, es[0]).value, es[1..], c))
  }

  /** The next step of call c deletes the entry of a VM that is Stopping. */
  predicate DeletesStopping(w: World, c: nat, p: nat, tid: string) {
    && c in w.calls && w.calls[c] == RemoveKilled(p, tid) && p in w.insts && w.insts[p].state == Stopping
    && Apply(w, Next(c)) == Some(Return(w, c).(vms := w.vms - {tid}, remover := None))
  }

  /** A Remove that has passed its check can come to delete a Stopping VM if and only if a Stop
      call has looked that VM up and not yet marked it. Without one, the entry is deleted from
      Running or Stopped, whatever else happens meanwhile. */
  lemma DeletedStoppingIff(w: World, c: nat, p: nat, tid: string)
    requires WellFormed(w) && Locked(w) && c in w.calls && w.calls[c] == RemoveChecked(p, tid)
    requires p in w.insts && !Transitional(w.insts[p].state)
    ensures (exists es: seq<Event> :: UnderLock(w, es, c) && Run(w, es).Some? && DeletesStopping(Run(w, es).value, c, p, tid))
            <==> exists d :: d in w.calls && Marker(w.calls[d], p)
  {
    if d :| d in w.calls && Marker(w.calls[d], p) {
      StopSlipsIn(w, c, d, p, tid);
    } else {
      forall es: seq<Event> | UnderLock(w, es, c) && Run(w, es).Some?
        ensures !DeletesStopping(Run(w, es).value, c, p, tid)
      {
        StaysUnmarked(w, es, c, p);
      }
    }
  }

  lemma {:induction false} StaysUnmarked(w: World, es: seq<Event>, c: nat, p: nat)
    requires UnderLock(w, es, c) && Run(w, es).Some? && p in w.insts && w.insts[p].state != Stopping
    requires forall d | d in w.calls :: !Marker(w.calls[d], p)
    ensures p in Run(w, es).value.insts && Run(w, es).value.insts[p].state != Stopping
    decreases |es|
  {
    if |es| > 0 {
      StaysNotStopping(w, es[0], p);
      StaysUnmarked(Apply(w, es[0]).value, es[1..], c, p);
    }
  }

  lemma StaysNotStopping(w: World, e: Event, p: nat)
    requires Apply(w, e).Some? && p in w.insts && w.insts[p].state != Stopping && w.remover.Some?
    requires forall c | c in w.calls :: !Marker(w.calls[c], p)
    ensures p in Apply(w, e).value.insts && Apply(w, e).value.insts[p].state != Stopping
    ensures forall c | c in Apply(w, e).value.calls :: !Marker(Apply(w, e).value.calls[c], p)
  {
  }

  lemma StopSlipsIn(w: World, c: nat, d: nat, p: nat, tid: string)
    requires Locked(w) && c in w.calls && w.calls[c] == RemoveChecked(p, tid)
    requires d in w.calls && Marker(w.calls[d], p) && p in w.insts && !Transitional(w.insts[p].state)
    ensures exists es: seq<Event> ::
              UnderLock(w, es, c) && Run(w, es).Some? && DeletesStopping(Run(w, es).value, c, p, tid)
  {
    assert w.remover == Some(c);
    if w.calls[d] == StopFound(p) {
      FoundSlipsIn(w, c, d, p, tid);
    } else {
      CheckedSlipsIn(w, c, d, p, tid);
    }
  }

  lemma FoundSlipsIn(w: World, c: nat, d: nat, p: nat, tid: string)
    requires w.remover == Some(c) && c in w.calls && w.calls[c] == RemoveChecked(p, tid)
    requires d in w.calls && w.calls[d] == StopFound(p) && p in w.insts && !Transitional(w.insts[p].state)
    ensures var r := Run(w, [Next(d)] + [Next(d), Next(c)]);
            UnderLock(w, [Next(d)] + [Next(d), Next(c)], c) && r.Some? && DeletesStopping(r.value, c, p, tid)
  {
    CheckedSlipsIn(At(w, d, StopChecked(p)), c, d, p, tid);
    RunOneMore(w, Next(d), [Next(d), Next(c)], c);
  }

  lemma RunOneMore(w: World, e: Event, es: seq<Event>, c: nat)
    requires w.remover == Some(c) && Apply(w, e).Some? && UnderLock(Apply(w, e).value, es, c)
    ensures UnderLock(w, [e] + es, c) && Run(w, [e] + es) == Run(Apply(w, e).value, es)
  {
    assert ([e] + es)[1..] == es;
  }

  lemma CheckedSlipsIn(w: World, c: nat, d: nat, p: nat, tid: string)
    requires w.remover == Some(c) && c in w.calls && w.calls[c] == RemoveChecked(p, tid)
    requires d in w.calls && w.calls[d] == StopChecked(p) && p in w.insts
    ensures var w' := At(Marked(w, d, p), c, RemoveKilled(p, tid));
            && UnderLock(w, [Next(d), Next(c)], c) && Run(w, [Next(d), Next(c)]) == Some(w')
            && DeletesStopping(w', c, p, tid)
  {
    var w1 := Marked(w, d, p);
    RunTwo(w, Next(d), Next(c));
    assert [Next(d), Next(c)][1..] == [Next(c)] && [Next(c)][1..] == [];
    assert UnderLock(At(w1, c, RemoveKilled(p, tid)), [], c) && UnderLock(w1, [Next(c)], c);
  }

  /** One VM, with a Stop and a Remove that have both passed their checks. */
  function LateRemove(tid: string, usesInit: bool): World {
    OneVM(tid, usesInit, map[1 := StopChecked(0), 2 := RemoveChecked(0, tid)]).(remover := Some(2))
  }

  function LateRemoveSteps(tid: string, usesInit: bool): seq<Event> {
    StopChecks(tid, usesInit) + [Begin(2, Remove, tid), Next(2)]
  }

  lemma LateRemoveIsReached(tid: string, usesInit: bool)
    ensures Run(EMPTY, LateRemoveSteps(tid, usesInit)) == Some(LateRemove(tid, usesInit))
  {
    var w3 := OneVM(tid, usesInit, map[1 := StopChecked(0)]);
    StopCheckedIsReached(tid, usesInit);
    RunConcat(EMPTY, StopChecks(tid, usesInit), [Begin(2, Remove, tid), Next(2)]);
    RunTwo(w3, Begin(2, Remove, tid), Next(2));
    assert At(At(w3, 2, RemoveFound(0, tid)), 2, RemoveChecked(0, tid)).(remover := Some(2))
        == LateRemove(tid, usesInit);
  }

  /** A run that ends so: the entry is gone, its instance Stopping, its process alive and not
      killed. */
  lemma DeletedStoppingIsReached(tid: string, usesInit: bool)
    ensures var r := Run(EMPTY, LateRemoveSteps(tid, usesInit) + [Next(1), Next(2), Next(2)]);
            r.Some? && tid !in r.value.vms && 0 in r.value.insts
            && r.value.insts[0] == Instance(Stopping, usesInit, true, false)
  {
    LateRemoveIsReached(tid, usesInit);
    RunConcat(EMPTY, LateRemoveSteps(tid, usesInit), [Next(1), Next(2), Next(2)]);
    LateRemoveEnds(tid, usesInit);
  }

  lemma LateRemoveEnds(tid: string, usesInit: bool)
    ensures var r := Run(LateRemove(tid, usesInit), [Next(1), Next(2), Next(2)]);
            r.Some? && tid !in r.value.vms && 0 in r.value.insts
            && r.value.insts[0] == Instance(Stopping, usesInit, true, false)
  {
    var w5 := LateRemove(tid, usesInit);
    CheckedSlipsIn(w5, 2, 1, 0, tid);
    RunConcat(w5, [Next(1), Next(2)], [Next(2)]);
    RunOne(At(Marked(w5, 1, 0), 2, RemoveKilled(0, tid)), Next(2));
    assert [Next(1), Next(2)] + [Next(2)] == [Next(1), Next(2), Next(2)];
  }

  /** Without an init system a stop can be recorded while the process lives, and Remove then
      drops the VM without a kill. */
  lemma HardStopCanLeak(w: World, c: nat, d: nat, tid: string)
    requires Idle(w, d, tid) && c in w.calls && w.calls[c] == StopMarked(w.vms[tid])
    requires !w.insts[w.vms[tid]].usesInit && w.insts[w.vms[tid]].alive && !w.insts[w.vms[tid]].killed
    ensures var r := Run(w, [Next(c), Next(c)] + RemoveSteps(d, tid));
            r.Some? && tid !in r.value.vms && w.vms[tid] in r.value.insts
            && r.value.insts[w.vms[tid]].alive && !r.value.insts[w.vms[tid]].killed
  {
    var p := w.vms[tid];
    var w1 := At(w, c, StopDone(p));
    var w2 := Return(SetState(w1, p, Stopped), c);
    RunTwo(w, Next(c), Next(c));
    RunConcat(w, [Next(c), Next(c)], RemoveSteps(d, tid));
    RemoveTakesStopped(w2, d, tid);
  }

  /** A run that ends so. */
  lemma LeakIsReached(tid: string)
    ensures var r := Run(EMPTY, StopChecks(tid, false) + [Next(1)] + ([Next(1), Next(1)] + RemoveSteps(2, tid)));
            r.Some? && tid !in r.value.vms && 0 in r.value.insts && r.value.insts[0].alive && !r.value.insts[0].killed
  {
    var w3 := OneVM(tid, false, map[1 := StopChecked(0)]);
    var w4 := At(SetState(w3, 0, Stopping), 1, StopMarked(0));
    StopCheckedIsReached(tid, false);
    RunConcat(EMPTY, StopChecks(tid, false), [Next(1)]);
    RunOne(w3, Next(1));
    RunConcat(EMPTY, StopChecks(tid, false) + [Next(1)], [Next(1), Next(1)] + RemoveSteps(2, tid));
    HardStopCanLeak(w4, 1, 2, tid);
  }
}

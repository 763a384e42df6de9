/** Allocating and then deallocating a service, a task or a node attachment gives every
    address back and disturbs nobody else.
 */
module Conservation {
  import opened Addresses
  import opened Options
  import opened Subnets
  import opened Ipam
  import opened PoolTheorems
  import opened AllocatorModel

  /** An address taken from one pool. */
  datatype Loan = Loan(key: Cidr, a: nat)

  function At(loans: seq<Loan>, c: Cidr): set<nat> {
    set l | l in loans && l.key == c :: l.a
  }

  /** q is p with exactly these addresses taken on top; only the ledger and cursor differ. */
  ghost predicate Lent(p: Pool, q: Pool, taken: set<nat>) {
    && q == p.(used := q.used, next := q.next)
    && taken <= q.used.Keys && q.used - taken == p.used
  }

  ghost predicate OnLoan(ps: Pools, qs: Pools, loans: seq<Loan>) {
    ps.Keys == qs.Keys && forall c | c in ps :: Lent(ps[c], qs[c], At(loans, c))
  }

  lemma AtAppend(loans: seq<Loan>, l: Loan, c: Cidr)
    ensures At(loans + [l], c) == if l.key == c then At(loans, c) + {l.a} else At(loans, c)
  {
  }

  lemma LentOneMore(p: Pool, q: Pool, taken: set<nat>, a: nat, owner: string, next: IP)
    requires Lent(p, q, taken) && a !in q.used
    ensures Lent(p, q.(used := q.used[a := owner], next := next), taken + {a})
  {
  }

  lemma LoanAdded(ps: Pools, qs: Pools, loans: seq<Loan>, c: Cidr, a: nat, owner: string, next: IP)
    requires OnLoan(ps, qs, loans) && c in qs && a !in qs[c].used
    ensures OnLoan(ps, qs[c := qs[c].(used := qs[c].used[a := owner], next := next)], loans + [Loan(c, a)])
  {
    LentOneMore(ps[c], qs[c], At(loans, c), a, owner, next);
    forall d
      ensures At(loans + [Loan(c, a)], d) == if d == c then At(loans, d) + {a} else At(loans, d)
    {
      AtAppend(loans, Loan(c, a), d);
    }
  }

  /** The pools after giving back loans, in order. */
  function Returned(ps: Pools, loans: seq<Loan>): Pools
    decreases |loans|
  {
    if |loans| == 0 then ps
    else Returned(Released(ps, loans[0].key, Some(loans[0].a)).0, loans[1..])
  }

  lemma ReleasedIs(ps: Pools, c: Cidr, a: nat)
    ensures var qs := Released(ps, c, Some(a)).0;
            qs.Keys == ps.Keys && forall d | d in ps :: qs[d] == if d == c then ReleaseFrom(ps[d], a) else ps[d]
  {
  }

  lemma {:induction false} ReturnedIs(ps: Pools, loans: seq<Loan>)
    ensures Returned(ps, loans).Keys == ps.Keys
    ensures forall c | c in ps :: Returned(ps, loans)[c] == ps[c].(used := ps[c].used - At(loans, c))
    decreases |loans|
  {
    if |loans| > 0 {
      var l := loans[0];
      var qs := Released(ps, l.key, Some(l.a)).0;
      ReleasedIs(ps, l.key, l.a);
      ReturnedIs(qs, loans[1..]);
      forall c | c in ps
        ensures Returned(ps, loans)[c] == ps[c].(used := ps[c].used - At(loans, c))
      {
        AtFront(loans, c);
        assert ps[c].used - {l.a} - At(loans[1..], c) == ps[c].used - ({l.a} + At(loans[1..], c));
      }
    } else {
      assert forall c | c in ps :: At(loans, c) == {} && ps[c].used - {} == ps[c].used;
    }
  }

  lemma AtFront(loans: seq<Loan>, c: Cidr)
    requires |loans| > 0
    ensures At(loans, c) == if loans[0].key == c then {loans[0].a} + At(loans[1..], c) else At(loans[1..], c)
  {
  }

  /** Returning everything on loan restores every ledger. */
  lemma AllReturned(ps: Pools, qs: Pools, loans: seq<Loan>)
    requires OnLoan(ps, qs, loans)
    ensures Returned(qs, loans).Keys == ps.Keys
    ensures forall c | c in ps :: Returned(qs, loans)[c] == ps[c].(next := qs[c].next)
  {
    ReturnedIs(qs, loans);
  }

  lemma NothingOnLoan(ps: Pools)
    ensures OnLoan(ps, ps, [])
  {
  }

  /** Two states with the same networks and the same ledgers: only cursors may differ. */
  ghost predicate SameHoldings(s: State, t: State) {
    && s.nets == t.nets && s.index == t.index && s.pools.Keys == t.pools.Keys
    && forall c | c in s.pools :: t.pools[c] == s.pools[c].(next := t.pools[c].next)
  }

  // ----- Tasks -----

  /** What DeallocateTask gives back from attachment i on. */
  function TaskLoans(nets: map<string, Net>, atts: seq<TaskNet>, i: nat): seq<Loan>
    requires i <= |atts|
    decreases |atts| - i
  {
    if i == |atts| then [] else AttLoans(nets, atts[i]) + TaskLoans(nets, atts, i + 1)
  }

  function AttLoans(nets: map<string, Net>, att: TaskNet): seq<Loan> {
    if att.network !in nets || |att.addresses| == 0 || att.addresses[0].Unparsable? then []
    else [Loan(nets[att.network].subnet.Text(), att.addresses[0].num)]
  }

  lemma {:induction false} DeallocateTaskReturns(s: State, atts: seq<TaskNet>, i: nat)
    requires i <= |atts|
    ensures var (s1, atts1) := DeallocateTask(s, atts, i);
            && s1 == s.(pools := Returned(s.pools, TaskLoans(s.nets, atts, i))) && |atts1| == |atts|
            && forall k | 0 <= k < |atts| ::
                 atts1[k] == if k >= i && AttLoans(s.nets, atts[k]) != [] then atts[k].(addresses := []) else atts[k]
    decreases |atts| - i
  {
    if i < |atts| {
      var (s1, att) := UntaskRound(s, atts[i]);
      DeallocateTaskReturns(s1, atts[i := att], i + 1);
      TaskLoansSkip(s.nets, atts, atts[i := att], i + 1);
      var loans := AttLoans(s.nets, atts[i]);
      if loans == [] {
        assert [] + TaskLoans(s.nets, atts, i + 1) == TaskLoans(s.nets, atts, i + 1);
      } else {
        assert (loans + TaskLoans(s.nets, atts, i + 1))[1..] == TaskLoans(s.nets, atts, i + 1);
      }
    }
  }

  lemma {:induction false} TaskLoansSkip(nets: map<string, Net>, a: seq<TaskNet>, b: seq<TaskNet>, i: nat)
    requires |a| == |b| && i <= |a| && forall k | i <= k < |a| :: a[k] == b[k]
    ensures TaskLoans(nets, a, i) == TaskLoans(nets, b, i)
    decreases |a| - i
  {
    if i < |a| {
      TaskLoansSkip(nets, a, b, i + 1);
    }
  }

  lemma {:induction false} TaskLoansUpTo(nets: map<string, Net>, atts: seq<TaskNet>, i: nat, j: nat)
    requires i <= j < |atts| && forall k | j < k < |atts| :: AttLoans(nets, atts[k]) == []
    ensures TaskLoans(nets, atts, i) ==
            TaskLoans(nets, atts[j := atts[j].(addresses := [])], i) + AttLoans(nets, atts[j])
    decreases j - i
  {
    var atts0 := atts[j := atts[j].(addresses := [])];
    if i < j {
      TaskLoansUpTo(nets, atts, i + 1, j);
      AppendThree(AttLoans(nets, atts[i]), TaskLoans(nets, atts0, i + 1), AttLoans(nets, atts[j]));
    } else {
      NoLoans(nets, atts, j + 1);
      NoLoans(nets, atts0, j);
      assert AttLoans(nets, atts[j]) + [] == [] + AttLoans(nets, atts[j]);
    }
  }

  lemma AppendThree<T>(a: seq<T>, b: seq<T>, c: seq<T>)
    ensures a + (b + c) == (a + b) + c
  {
  }

  lemma {:induction false} NoLoans(nets: map<string, Net>, atts: seq<TaskNet>, i: nat)
    requires i <= |atts| && forall k | i <= k < |atts| :: AttLoans(nets, atts[k]) == []
    ensures TaskLoans(nets, atts, i) == []
    decreases |atts| - i
  {
    if i < |atts| {
      NoLoans(nets, atts, i + 1);
    }
  }

  /** AllocateTask changes no network and only the addresses of the attachments from i on. */
  lemma {:induction false} TaskShape(t: State, tid: string, atts: seq<TaskNet>, i: nat)
    requires i <= |atts|
    ensures var (t1, atts1, _) := AllocateTask(t, tid, atts, i);
            && t1.nets == t.nets && t1.index == t.index && |atts1| == |atts|
            && forall k | 0 <= k < |atts| ::
                 atts1[k].network == atts[k].network && (k < i ==> atts1[k] == atts[k])
    decreases |atts| - i
  {
    if i < |atts| {
      var (t1, att, ok) := TaskRound(t, tid, atts[i]);
      if ok {
        TaskShape(t1, tid, atts[i := att], i + 1);
      }
    }
  }

  /** While AllocateTask runs, what is on loan is what the attachments record. */
  lemma {:induction false} TaskFilling(s: State, t: State, tid: string, atts: seq<TaskNet>, i: nat)
    requires i <= |atts| && t.nets == s.nets && OnLoan(s.pools, t.pools, TaskLoans(s.nets, atts, 0))
    requires forall k | i <= k < |atts| :: atts[k].addresses == []
    requires AllocateTask(t, tid, atts, i).2
    ensures var (t1, atts1, _) := AllocateTask(t, tid, atts, i);
            && OnLoan(s.pools, t1.pools, TaskLoans(s.nets, atts1, 0)) && |atts1| == |atts|
            && forall k | i <= k < |atts| :: AttLoans(s.nets, atts1[k]) != []
    decreases |atts| - i
  {
    if i < |atts| {
      var (t1, att, _) := TaskRound(t, tid, atts[i]);
      TaskRoundLends(s, t, tid, atts, i);
      TaskShape(t1, tid, atts[i := att], i + 1);
      TaskFilling(s, t1, tid, atts[i := att], i + 1);
    }
  }

  lemma TaskRoundLends(s: State, t: State, tid: string, atts: seq<TaskNet>, i: nat)
    requires i < |atts| && t.nets == s.nets && OnLoan(s.pools, t.pools, TaskLoans(s.nets, atts, 0))
    requires forall k | i <= k < |atts| :: atts[k].addresses == []
    requires TaskRound(t, tid, atts[i]).2
    ensures var (t1, att, _) := TaskRound(t, tid, atts[i]);
            OnLoan(s.pools, t1.pools, TaskLoans(s.nets, atts[i := att], 0)) && AttLoans(s.nets, att) != []
  {
    var (t1, att, _) := TaskRound(t, tid, atts[i]);
    var key, pool := KeyOf(t, att.network), t.pools[KeyOf(t, att.network)];
    ScanFree(pool, pool.next, 256);
    var ip := Allocated(t.pools, key, tid).1.value;
    LoanAdded(s.pools, t.pools, TaskLoans(s.nets, atts, 0), key, ip.Num(), tid, Next(ip));
    TaskLoansUpTo(s.nets, atts[i := att], 0, i);
    assert atts[i := att][i := att.(addresses := [])] == atts;
  }

  /** AllocateTask then DeallocateTask, for a task without addresses, on any networks with
      repetitions: every ledger and every other holder is as before, and so is the task. */
  lemma TaskConservation(s: State, tid: string, atts: seq<TaskNet>)
    requires forall i | 0 <= i < |atts| :: atts[i].addresses == []
    requires AllocateTask(s, tid, atts, 0).2
    ensures var (s1, atts1, _) := AllocateTask(s, tid, atts, 0);
            var (s2, atts2) := DeallocateTask(s1, atts1, 0);
            SameHoldings(s, s2) && atts2 == atts
  {
    var (s1, atts1, _) := AllocateTask(s, tid, atts, 0);
    NoLoans(s.nets, atts, 0);
    NothingOnLoan(s.pools);
    TaskShape(s, tid, atts, 0);
    TaskFilling(s, s, tid, atts, 0);
    DeallocateTaskReturns(s1, atts1, 0);
    AllReturned(s.pools, s1.pools, TaskLoans(s.nets, atts1, 0));
  }

  // ----- Node attachments -----

  /** AllocateAttachment then DeallocateAttachment, for a node without one on the network. */
  lemma AttachmentConservation(s: State, nid: string, att: TaskNet)
    requires att.network in s.nets && nid !in s.nets[att.network].attachments
    requires AllocateAttachment(s, nid, att).2
    ensures var (s1, att1, _) := AllocateAttachment(s, nid, att);
            var (s2, att2) := DeallocateAttachment(s1, nid, att1);
            SameHoldings(s, s2) && att2 == att.(addresses := [])
  {
    var key, pool := KeyOf(s, att.network), s.pools[KeyOf(s, att.network)];
    ScanFree(pool, pool.next, 256);
    var (s1, att1, _) := AllocateAttachment(s, nid, att);
    var (s2, att2) := DeallocateAttachment(s1, nid, att1);
    var a := att1.addresses[0].num;
    assert pool.used[a := nid] - {a} == pool.used;
    var n := s.nets[att.network];
    assert s1.nets[att.network].attachments - {nid} == n.attachments;
    assert s2.nets == s.nets;
  }

  // ----- Services -----

  predicate NoDuplicates<T(==)>(xs: seq<T>) {
    |xs| == 0 || (xs[0] !in xs[1..] && NoDuplicates(xs[1..]))
  }

  /** The VIPs the service holds on these networks. */
  function ServiceLoans(nets: map<string, Net>, sid: string, targets: seq<string>): seq<Loan>
    decreases |targets|
  {
    if |targets| == 0 then []
    else NetLoans(nets, sid, targets[0]) + ServiceLoans(nets, sid, targets[1..])
  }

  function NetLoans(nets: map<string, Net>, sid: string, id: string): seq<Loan> {
    if id in nets && sid in nets[id].services && nets[id].services[sid].vip.Some?
    then [Loan(nets[id].subnet.Text(), nets[id].services[sid].vip.value.Num())] else []
  }

  lemma {:induction false} ServiceLoansLocal(nets: map<string, Net>, nets': map<string, Net>, sid: string,
                                             targets: seq<string>)
    requires forall id | id in targets :: NetLoans(nets, sid, id) == NetLoans(nets', sid, id)
    ensures ServiceLoans(nets, sid, targets) == ServiceLoans(nets', sid, targets)
    decreases |targets|
  {
    if |targets| > 0 {
      assert targets == [targets[0]] + targets[1..];
      ServiceLoansLocal(nets, nets', sid, targets[1..]);
    }
  }

  /** The networks with the service taken off some of them. */
  function Without(nets: map<string, Net>, sid: string, targets: seq<string>): map<string, Net> {
    map id | id in nets ::
      if id in targets then nets[id].(services := nets[id].services - {sid}) else nets[id]
  }

  lemma {:induction false} DeallocateServiceReturns(s: State, sid: string, targets: seq<string>)
    requires NoDuplicates(targets)
    ensures UnserviceRounds(s, sid, targets) ==
            s.(pools := Returned(s.pools, ServiceLoans(s.nets, sid, targets)), nets := Without(s.nets, sid, targets))
    decreases |targets|
  {
    if |targets| == 0 {
      assert Without(s.nets, sid, targets) == s.nets;
    } else {
      var s1, rest := UnserviceRound(s, sid, targets[0]), targets[1..];
      UnserviceRoundReturns(s, sid, targets[0]);
      DeallocateServiceReturns(s1, sid, rest);
      ServiceLoansLocal(s.nets, s1.nets, sid, rest);
      assert targets == [targets[0]] + rest;
      assert Without(s1.nets, sid, rest) == Without(s.nets, sid, targets);
      var loans := NetLoans(s.nets, sid, targets[0]);
      assert (loans + ServiceLoans(s.nets, sid, rest))[|loans|..] == ServiceLoans(s.nets, sid, rest);
    }
  }

  lemma UnserviceRoundReturns(s: State, sid: string, id: string)
    ensures UnserviceRound(s, sid, id) ==
            s.(pools := Returned(s.pools, NetLoans(s.nets, sid, id)), nets := Without(s.nets, sid, [id]))
  {
    var nets := Without(s.nets, sid, [id]);
    assert UnserviceRound(s, sid, id).nets == nets by {
      if id in s.nets && sid !in s.nets[id].services {
        assert s.nets[id].services - {sid} == s.nets[id].services;
      }
    }
    var loans := NetLoans(s.nets, sid, id);
    assert |loans| > 0 ==> loans[1..] == [];
  }

  /** What the rounds of AllocateService leave alone: everything but the service's own records
      on these networks and the ledgers. */
  lemma {:induction false} ServiceRoundsLocal(t: State, sid: string, targets: seq<string>)
    requires ServiceRounds(t, sid, targets).1
    ensures var t1 := ServiceRounds(t, sid, targets).0;
            && Without(t1.nets, sid, targets) == Without(t.nets, sid, targets)
            && t1.pools.Keys == t.pools.Keys && forall c | c in t.pools :: t1.pools[c].next == t.pools[c].next
    decreases |targets|
  {
    if |targets| > 0 {
      var id, rest := targets[0], targets[1..];
      var t0 := ServiceRound(t, sid, id).0;
      ServiceRoundLocal(t, sid, id);
      ServiceRoundsLocal(t0, sid, rest);
      WithoutMore(t.nets, t0.nets, ServiceRounds(t0, sid, rest).0.nets, sid, id, rest);
      assert targets == [id] + rest;
    }
  }

  lemma ServiceRoundLocal(t: State, sid: string, id: string)
    requires ServiceRound(t, sid, id).1
    ensures var t0 := ServiceRound(t, sid, id).0;
            && Without(t0.nets, sid, [id]) == Without(t.nets, sid, [id])
            && t0.pools.Keys == t.pools.Keys && forall c | c in t.pools :: t0.pools[c].next == t.pools[c].next
  {
    var t0 := ServiceRound(t, sid, id).0;
    assert t0.nets[id].services - {sid} == t.nets[id].services - {sid};
  }

  /** While AllocateService runs, what is on loan is what the networks record. */
  lemma {:induction false} ServiceFilling(s: State, t: State, sid: string, targets: seq<string>, loans: seq<Loan>)
    requires NoDuplicates(targets) && OnLoan(s.pools, t.pools, loans) && ServiceRounds(t, sid, targets).1
    ensures var t1 := ServiceRounds(t, sid, targets).0;
            OnLoan(s.pools, t1.pools, loans + ServiceLoans(t1.nets, sid, targets))
    decreases |targets|
  {
    if |targets| == 0 {
      assert loans + [] == loans;
    } else {
      var id, rest := targets[0], targets[1..];
      var t0 := ServiceRound(t, sid, id).0;
      var t1 := ServiceRounds(t0, sid, rest).0;
      ServiceRoundLends(s, t, sid, id, loans);
      ServiceFilling(s, t0, sid, rest, loans + NetLoans(t0.nets, sid, id));
      assert loans + ServiceLoans(t1.nets, sid, targets)
          == loans + NetLoans(t0.nets, sid, id) + ServiceLoans(t1.nets, sid, rest) by {
        ServiceRoundsLocal(t0, sid, rest);
        WithoutOutside(t0.nets, t1.nets, sid, rest, id);
        AppendThree(loans, NetLoans(t0.nets, sid, id), ServiceLoans(t1.nets, sid, rest));
      }
    }
  }

  lemma WithoutOutside(nets: map<string, Net>, nets': map<string, Net>, sid: string, targets: seq<string>, id: string)
    requires Without(nets, sid, targets) == Without(nets', sid, targets) && id !in targets
    ensures id in nets <==> id in nets'
    ensures id in nets ==> nets[id] == nets'[id]
  {
    assert id in nets <==> id in Without(nets, sid, targets);
    assert id in nets' <==> id in Without(nets', sid, targets);
    if id in nets {
      assert nets[id] == Without(nets, sid, targets)[id];
      assert nets'[id] == Without(nets', sid, targets)[id];
    }
  }

  lemma WithoutMore(a: map<string, Net>, b: map<string, Net>, c: map<string, Net>, sid: string, id: string,
                    rest: seq<string>)
    requires Without(a, sid, [id]) == Without(b, sid, [id]) && Without(b, sid, rest) == Without(c, sid, rest)
    ensures Without(a, sid, [id] + rest) == Without(c, sid, [id] + rest)
  {
  }

  lemma ServiceRoundLends(s: State, t: State, sid: string, id: string, loans: seq<Loan>)
    requires OnLoan(s.pools, t.pools, loans) && ServiceRound(t, sid, id).1
    ensures var t0 := ServiceRound(t, sid, id).0;
            OnLoan(s.pools, t0.pools, loans + NetLoans(t0.nets, sid, id))
  {
    var key := KeyOf(t, id);
    var pool := t.pools[key];
    ScanDownFree(pool, VIPRangeStart(pool.subnet), 16);
    var vip := VIPAllocated(t.pools, key, sid).1.value;
    LoanAdded(s.pools, t.pools, loans, key, vip.Num(), VIPOwner(sid), pool.next);
  }

  /** AllocateService then DeallocateService, for a service that is on no network and
      publishes no ports, on distinct networks: the state is exactly as before. */
  lemma ServiceConservation(s: State, sid: string, targets: seq<string>, pick: Option<string>)
    requires NoDuplicates(targets) && FirstIngress(s, pick)
    requires forall id | id in s.nets :: sid !in s.nets[id].services
    requires AllocateService(s, sid, targets, false, pick).1
    ensures var s1 := AllocateService(s, sid, targets, false, pick).0;
            FirstIngress(s1, pick) && DeallocateService(s1, sid, targets, pick) == s
  {
    RoundsKeepNets(s, sid, targets);
    ServiceRoundsRestored(s, sid, targets);
    if pick.Some? {
      assert s.nets[pick.value].services - {sid} == s.nets[pick.value].services;
    }
  }

  lemma ServiceRoundsRestored(s: State, sid: string, targets: seq<string>)
    requires NoDuplicates(targets) && ServiceRounds(s, sid, targets).1
    requires forall id | id in s.nets :: sid !in s.nets[id].services
    ensures UnserviceRounds(ServiceRounds(s, sid, targets).0, sid, targets) == s
  {
    var s1 := ServiceRounds(s, sid, targets).0;
    var loans := ServiceLoans(s1.nets, sid, targets);
    NothingOnLoan(s.pools);
    ServiceFilling(s, s, sid, targets, []);
    ServiceRoundsLocal(s, sid, targets);
    assert [] + loans == loans;
    AllReturned(s.pools, s1.pools, loans);
    assert Returned(s1.pools, loans) == s.pools;
    DeallocateServiceReturns(s1, sid, targets);
    WithoutNothing(s.nets, sid, targets);
    RoundsKeepNets(s, sid, targets);
  }

  lemma WithoutNothing(nets: map<string, Net>, sid: string, targets: seq<string>)
    requires forall id | id in nets :: sid !in nets[id].services
    ensures Without(nets, sid, targets) == nets
  {
    assert forall id | id in nets :: nets[id].services - {sid} == nets[id].services;
  }

  // ----- Networks named twice -----

  /** An address that is taken although no network records it for the service. */
  ghost predicate Orphan(s: State, sid: string, l: Loan) {
    && l.key in s.pools && l.a in s.pools[l.key].used
    && forall id | id in s.nets :: l !in NetLoans(s.nets, sid, id)
  }

  /** Every VIP recorded for the service is taken in its pool. */
  ghost predicate RecordsTaken(s: State, sid: string) {
    forall id, l | id in s.nets && l in NetLoans(s.nets, sid, id) :: l.key in s.pools && l.a in s.pools[l.key].used
  }

  lemma ServiceRoundFacts(t: State, sid: string, id: string) returns (l: Loan)
    requires ServiceRound(t, sid, id).1
    ensures var t0 := ServiceRound(t, sid, id).0;
            && id in t.nets && t0.nets.Keys == t.nets.Keys && t0.pools.Keys == t.pools.Keys
            && l.key in t.pools && l.a !in t.pools[l.key].used && l.a in t0.pools[l.key].used
            && NetLoans(t0.nets, sid, id) == [l]
            && (forall other | other != id :: NetLoans(t0.nets, sid, other) == NetLoans(t.nets, sid, other))
            && forall c | c in t.pools :: t.pools[c].used.Keys <= t0.pools[c].used.Keys
  {
    var key := KeyOf(t, id);
    ScanDownFree(t.pools[key], VIPRangeStart(t.pools[key].subnet), 16);
    l := Loan(key, VIPAllocated(t.pools, key, sid).1.value.Num());
  }

  lemma {:induction false} OrphanStays(t: State, sid: string, targets: seq<string>, l: Loan)
    requires Orphan(t, sid, l) && ServiceRounds(t, sid, targets).1
    ensures Orphan(ServiceRounds(t, sid, targets).0, sid, l)
    decreases |targets|
  {
    if |targets| > 0 {
      var _ := ServiceRoundFacts(t, sid, targets[0]);
      OrphanStays(ServiceRound(t, sid, targets[0]).0, sid, targets[1..], l);
    }
  }

  lemma {:induction false} OrphanOutlives(t: State, sid: string, targets: seq<string>, l: Loan)
    requires Orphan(t, sid, l)
    ensures Orphan(UnserviceRounds(t, sid, targets), sid, l)
    decreases |targets|
  {
    if |targets| > 0 {
      var t1 := UnserviceRound(t, sid, targets[0]);
      assert forall id | id in t1.nets :: id in t.nets && (l in NetLoans(t1.nets, sid, id) ==> l in NetLoans(t.nets, sid, id));
      OrphanOutlives(t1, sid, targets[1..], l);
    }
  }

  /** A VIP recorded on id alone becomes an orphan when id comes up again. */
  lemma {:induction false} Orphaned(t: State, sid: string, targets: seq<string>, id: string, l: Loan)
    requires id in targets && ServiceRounds(t, sid, targets).1
    requires l.key in t.pools && l.a in t.pools[l.key].used
    requires forall other | other in t.nets && other != id :: l !in NetLoans(t.nets, sid, other)
    ensures Orphan(ServiceRounds(t, sid, targets).0, sid, l)
    decreases |targets|
  {
    var t0 := ServiceRound(t, sid, targets[0]).0;
    var _ := ServiceRoundFacts(t, sid, targets[0]);
    if targets[0] == id {
      OrphanStays(t0, sid, targets[1..], l);
    } else {
      assert targets == [targets[0]] + targets[1..];
      Orphaned(t0, sid, targets[1..], id, l);
    }
  }

  lemma {:induction false} RepetitionOrphans(t: State, sid: string, targets: seq<string>) returns (l: Loan)
    requires !NoDuplicates(targets) && RecordsTaken(t, sid) && ServiceRounds(t, sid, targets).1
    ensures l.key in t.pools && l.a !in t.pools[l.key].used
    ensures Orphan(ServiceRounds(t, sid, targets).0, sid, l)
    decreases |targets|
  {
    var t0, rest := ServiceRound(t, sid, targets[0]).0, targets[1..];
    l := ServiceRoundFacts(t, sid, targets[0]);
    if targets[0] in rest {
      Orphaned(t0, sid, rest, targets[0], l);
    } else {
      l := RepetitionOrphans(t0, sid, rest);
    }
  }

  /** The round trip of ServiceConservation is exact: it succeeds if and only if no network is
      named twice. Each repetition keeps an address that nobody records. */
  lemma ServiceConservationIff(s: State, sid: string, targets: seq<string>, pick: Option<string>)
    requires FirstIngress(s, pick)
    requires forall id | id in s.nets :: sid !in s.nets[id].services
    requires AllocateService(s, sid, targets, false, pick).1
    ensures var s1 := AllocateService(s, sid, targets, false, pick).0;
            FirstIngress(s1, pick) && (DeallocateService(s1, sid, targets, pick) == s <==> NoDuplicates(targets))
  {
    if NoDuplicates(targets) {
      ServiceConservation(s, sid, targets, pick);
    } else {
      RoundsKeepNets(s, sid, targets);
      var l := RepetitionOrphans(s, sid, targets);
      OrphanOutlives(ServiceRounds(s, sid, targets).0, sid, targets, l);
    }
  }
}

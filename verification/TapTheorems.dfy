/** How the TAP map and the address table agree over runs, and what a cleanup restores. */
module TapTheorems {
  import opened Options
  import opened StaticAllocator
  import opened TapTable
  import opened Runs

  /** No task identifier followed by a dash starts another one followed by a dash. */
  predicate PrefixFree(ids: set<string>) {
    forall x, y | x in ids && y in ids && x != y :: !(Prefix(x) <= Prefix(y))
  }

  /** Every TAP belongs to a known task, and an address on a TAP is in the table under that
      task. */
  ghost predicate Agree(ids: set<string>, s: State) {
    && OneAddressEach(s.table)
    && forall key | key in s.taps ::
         exists tid :: tid in ids && Prefix(tid) <= key && Backed(s, key, tid)
  }

  predicate Backed(s: State, key: string, tid: string)
    requires key in s.taps
  {
    s.taps[key].ip.Some? ==> s.taps[key].ip.value in s.table && s.table[s.taps[key].ip.value] == tid
  }

  lemma PrefixesOfOneKey(x: string, y: string, key: string)
    requires Prefix(x) <= key && Prefix(y) <= key
    ensures Prefix(x) <= Prefix(y) || Prefix(y) <= Prefix(x)
  {
  }

  lemma KeyHasPrefix(tid: string, name: string)
    ensures Prefix(tid) <= Prefix(tid) + name
  {
  }

  // ----- One attachment -----

  /** Between s and t, task tid alone has acted: its TAPs carry no address, or the one address
      a that it was newly given. */
  ghost predicate ClaimedOnly(s: State, t: State, tid: string, a: Option<nat>) {
    && t.taps - Mine(t.taps, tid) == s.taps
    && (forall key | key in Mine(t.taps, tid) :: t.taps[key].ip.Some? ==> t.taps[key].ip == a)
    && match a
       case None => t.table == s.table
       case Some(x) =>
         && x !in s.table && t.table == s.table[x := tid]
         && exists key :: key in Mine(t.taps, tid) && t.taps[key].ip == a
  }

  lemma StoreClaims(s: State, t: State, tid: string, name: string, ip: Option<nat>, a: Option<nat>)
    requires t.taps - Mine(t.taps, tid) == s.taps
    requires forall key | key in Mine(t.taps, tid) :: t.taps[key].ip.Some? ==> t.taps[key].ip == a
    requires ip == a
    requires match a case None => t.table == s.table case Some(x) => x !in s.table && t.table == s.table[x := tid]
    ensures ClaimedOnly(s, StoreTap(t, tid, Tap(name, ip)), tid, a)
  {
    var w, key := StoreTap(t, tid, Tap(name, ip)), Prefix(tid) + name;
    KeyHasPrefix(tid, name);
    assert key in Mine(w.taps, tid) && w.taps[key].ip == a;
    assert Mine(w.taps, tid) == Mine(t.taps, tid) + {key};
    assert w.taps - Mine(w.taps, tid) == t.taps - Mine(t.taps, tid);
  }

  /** The table has the address, if there is one, under the task. */
  predicate Backs(t: Table, tid: string, a: Option<nat>) {
    a.Some? ==> a.value in t && t[a.value] == tid
  }

  predicate NoAddresses(atts: seq<Attachment>) {
    forall k | 0 <= k < |atts| :: atts[k].address.None?
  }

  /** The address that a task without one is given. */
  function Granted(u: Setup, s: State, tid: string): Option<nat>
    requires Usable(u)
  {
    if u.plan.Some? && u.staticMode then Place(u.plan.value, s.table, tid).1 else None
  }

  /** A task that holds no TAP and no address. */
  predicate Fresh(u: Setup, s: State, tid: string) {
    Usable(u) && OneAddressEach(s.table) && Mine(s.taps, tid) == {} && tid !in s.table.Values
  }

  /** What createTapDevice does for a task that has at most the address granted to it. */
  lemma CreateClaims(u: Setup, s: State, t: State, tid: string, att: Attachment, i: nat, ok: bool)
    requires Fresh(u, s, tid) && att.address.None?
    requires t.table == s.table || (Granted(u, s, tid).Some? && t.table == s.table[Granted(u, s, tid).value := tid])
    ensures var (t1, tap) := CreateTap(u, t, att, i, tid, ok);
            && t1.taps == t.taps && (ok ==> tap == Some(Tap(TapName(u, tid, i), Granted(u, s, tid)))) && (!ok ==> tap.None?)
            && t1.table == (if Granted(u, s, tid).Some? then s.table[Granted(u, s, tid).value := tid] else s.table)
            && (Granted(u, s, tid).Some? ==> Granted(u, s, tid).value !in s.table)
  {
    if u.plan.Some? && u.staticMode {
      AllocationKeepsOne(u.plan.value, s.table, tid);
      if t.table != s.table {
        OwnAddress(s.table, t.table, tid, Granted(u, s, tid).value);
      }
    }
  }

  lemma OwnAddress(s: Table, t: Table, tid: string, a: nat)
    requires tid !in s.Values && t == s[a := tid]
    ensures tid in t.Values && AddressOf(t, tid) == a
  {
    assert t[a] in t.Values;
    assert forall x | x in s :: s[x] in s.Values;
  }

  /** Once a TAP is stored, each further attachment keeps the claim, whether it succeeds or not. */
  lemma AttachKeepsClaim(u: Setup, s: State, t: State, tid: string, att: Attachment, i: nat, viaCNI: bool, ok: bool,
                         cni: CniResult)
    requires Fresh(u, s, tid) && ClaimedOnly(s, t, tid, Granted(u, s, tid))
    requires att.address.None? || (att.address == Granted(u, s, tid) && !viaCNI)
    ensures ClaimedOnly(s, AttachOne(u, t, tid, att, i, viaCNI, ok, cni).0, tid, Granted(u, s, tid))
  {
    if att.address.None? {
      CreateClaims(u, s, t, tid, att, i, ok);
    }
    var (t1, tap) := CreateTap(u, t, att, i, tid, ok);
    assert t1 == t;
    if tap.Some? {
      StoreClaims(s, t, tid, tap.value.name, tap.value.ip, Granted(u, s, tid));
    }
  }

  lemma {:induction false} AttachFromKeepsClaim(u: Setup, s: State, t: State, tid: string, atts: seq<Attachment>, i: nat,
                                                viaCNI: bool, kernel: nat -> bool, cni: nat -> CniResult)
    requires Fresh(u, s, tid) && ClaimedOnly(s, t, tid, Granted(u, s, tid)) && i <= |atts|
    requires forall k | i <= k < |atts| :: atts[k].address.None? || (atts[k].address == Granted(u, s, tid) && !viaCNI)
    ensures ClaimedOnly(s, AttachFrom(u, t, tid, atts, i, viaCNI, kernel, cni).0, tid, Granted(u, s, tid))
    decreases |atts| - i
  {
    if i < |atts| {
      var (t1, att, ok) := AttachOne(u, t, tid, atts[i], i, viaCNI, kernel(i), cni(i));
      AttachKeepsClaim(u, s, t, tid, atts[i], i, viaCNI, kernel(i), cni(i));
      if ok {
        AttachFromKeepsClaim(u, s, t1, tid, atts[i := att], i + 1, viaCNI, kernel, cni);
      }
    }
  }

  /** Whether the first device of a PrepareNetwork can be made. */
  predicate FirstMade(atts: seq<Attachment>, defaultOk: bool, kernel: nat -> bool) {
    if |atts| == 0 then defaultOk else kernel(0)
  }

  lemma PrepareClaims(u: Setup, s: State, tid: string, atts: seq<Attachment>, defaultOk: bool,
                      kernel: nat -> bool, cni: nat -> CniResult)
    requires Fresh(u, s, tid) && NoAddresses(atts)
    ensures var t, a := Prepare(u, s, tid, atts, defaultOk, kernel, cni).0, Granted(u, s, tid);
            && (a.Some? ==> a.value !in s.table)
            && if FirstMade(atts, defaultOk, kernel) then ClaimedOnly(s, t, tid, a)
               else t == State(s.taps, if a.Some? then s.table[a.value := tid] else s.table)
  {
    var att := if |atts| == 0 then DEFAULT_NETWORK else atts[0];
    var ok, a := FirstMade(atts, defaultOk, kernel), Granted(u, s, tid);
    CreateClaims(u, s, s, tid, att, 0, ok);
    if ok {
      var (s1, tap) := CreateTap(u, s, att, 0, tid, ok);
      var t := StoreTap(s1, tid, tap.value);
      assert s.taps - {} == s.taps;
      StoreClaims(s, s1, tid, tap.value.name, a, a);
      if |atts| == 0 {
        AttachFromKeepsClaim(u, s, t, tid, [DEFAULT_NETWORK.(address := a)], 0, false, kernel, cni);
      } else {
        AttachFromKeepsClaim(u, s, t, tid, atts[0 := att.(address := a)], 1, u.hasCNI, kernel, cni);
      }
    }
  }

  /** CleanupNetwork undoes a PrepareNetwork, successful or not, of a task that held no TAP and no
      address, on attachments without SwarmKit addresses, exactly when its first device could
      be made or no address was granted. Otherwise the address stays taken. */
  lemma CleanupRestoresIff(u: Setup, s: State, tid: string, atts: seq<Attachment>, defaultOk: bool,
                           kernel: nat -> bool, cni: nat -> CniResult)
    requires Fresh(u, s, tid) && NoAddresses(atts)
    ensures var t := Cleanup(u, Prepare(u, s, tid, atts, defaultOk, kernel, cni).0, tid);
            && (t == s <==> FirstMade(atts, defaultOk, kernel) || Granted(u, s, tid).None?)
            && (t != s ==> t == State(s.taps, s.table[Granted(u, s, tid).value := tid]))
  {
    var t, a := Prepare(u, s, tid, atts, defaultOk, kernel, cni).0, Granted(u, s, tid);
    PrepareClaims(u, s, tid, atts, defaultOk, kernel, cni);
    if FirstMade(atts, defaultOk, kernel) {
      ClaimUndone(u, s, t, tid, a);
    } else {
      assert Freed(t.taps, {}) == {} && t.table - {} == t.table && t.taps - {} == t.taps;
    }
  }

  lemma ClaimUndone(u: Setup, s: State, t: State, tid: string, a: Option<nat>)
    requires ClaimedOnly(s, t, tid, a) && (a.Some? ==> u.plan.Some?)
    ensures Cleanup(u, t, tid) == s
  {
    match a {
      case None =>
        assert Freed(t.taps, Mine(t.taps, tid)) == {};
        assert s.table - {} == s.table;
      case Some(x) =>
        assert Freed(t.taps, Mine(t.taps, tid)) == {x};
        assert s.table[x := tid] - {x} == s.table;
    }
  }

  /** A successful one is always undone. */
  lemma CleanupRestores(u: Setup, s: State, tid: string, atts: seq<Attachment>, defaultOk: bool,
                        kernel: nat -> bool, cni: nat -> CniResult)
    requires Fresh(u, s, tid) && NoAddresses(atts) && Prepare(u, s, tid, atts, defaultOk, kernel, cni).2
    ensures Cleanup(u, Prepare(u, s, tid, atts, defaultOk, kernel, cni).0, tid) == s
  {
    PrepareSucceedsIff(u, s, tid, atts, defaultOk, kernel, cni);
    CleanupRestoresIff(u, s, tid, atts, defaultOk, kernel, cni);
  }

  // ----- When a preparation succeeds, and what it leaves -----

  /** One attachment. With CNI and an address, the plugin decides: an error fails, an empty result
      does nothing, an interface becomes a TAP with the plugin's name and address. Otherwise the
      device decides: once it is made, a TAP tap-digest-index carries the address given, or in
      static mode that of the task in the table, or none; in static mode an address is allocated
      even when the device then fails. */
  lemma AttachResult(u: Setup, s: State, tid: string, att: Attachment, i: nat, viaCNI: bool, ok: bool, cni: CniResult)
    requires Usable(u)
    ensures var (t, att1, good) := AttachOne(u, s, tid, att, i, viaCNI, ok, cni);
            var name := "tap-" + u.digest(tid) + "-" + Decimal(i);
            && att1.network == att.network
            && (viaCNI && att.address.Some? ==>
                  && t.table == s.table && att1 == att && (good <==> !cni.CniError?)
                  && t.taps == (if cni.CniInterface? then s.taps[tid + "-" + cni.name := Tap(cni.name, Some(cni.ip))]
                                else s.taps))
            && (!(viaCNI && att.address.Some?) ==>
                  && (good <==> ok)
                  && t.taps == (if ok then s.taps[tid + "-" + name := Tap(name, att1.address)] else s.taps)
                  && (!ok ==> att1 == att)
                  && (att.address.Some? ==> t.table == s.table && att1 == att)
                  && (att.address.None? && (u.plan.None? || !u.staticMode) ==> t.table == s.table && att1 == att)
                  && (att.address.None? && u.plan.Some? && u.staticMode ==>
                        && t.table == Allocated(u.plan.value, s.table, tid)
                        && (ok && att1.address.Some? ==> Backs(t.table, tid, att1.address))
                        && (ok && att1.address.None? ==> Place(u.plan.value, s.table, tid).1.None?)))
  {
  }

  /** The step of attachment k that decides about it. */
  predicate Decided(u: Setup, att: Attachment, k: nat, viaCNI: bool, kernel: nat -> bool, cni: nat -> CniResult) {
    if viaCNI && att.address.Some? then !cni(k).CniError? else kernel(k)
  }

  lemma {:induction false} AttachFromSucceedsIff(u: Setup, s: State, tid: string, atts: seq<Attachment>, i: nat,
                                                 viaCNI: bool, kernel: nat -> bool, cni: nat -> CniResult)
    requires Usable(u) && i <= |atts|
    ensures AttachFrom(u, s, tid, atts, i, viaCNI, kernel, cni).2 <==>
            forall k | i <= k < |atts| :: Decided(u, atts[k], k, viaCNI, kernel, cni)
    decreases |atts| - i
  {
    if i < |atts| {
      var (s1, att, ok) := AttachOne(u, s, tid, atts[i], i, viaCNI, kernel(i), cni(i));
      assert ok <==> Decided(u, atts[i], i, viaCNI, kernel, cni);
      if ok {
        assert forall k | i + 1 <= k < |atts| :: atts[i := att][k] == atts[k];
        AttachFromSucceedsIff(u, s1, tid, atts[i := att], i + 1, viaCNI, kernel, cni);
      }
    }
  }

  /** PrepareNetwork succeeds exactly when every device can be made, or is given by the CNI plugin
      without an error where CNI is used and the attachment has an address. Without attachments
      the default device must be made twice. */
  lemma PrepareSucceedsIff(u: Setup, s: State, tid: string, atts: seq<Attachment>, defaultOk: bool,
                           kernel: nat -> bool, cni: nat -> CniResult)
    requires Usable(u)
    ensures Prepare(u, s, tid, atts, defaultOk, kernel, cni).2 <==>
            if |atts| == 0 then defaultOk && kernel(0)
            else forall k | 0 <= k < |atts| :: Decided(u, atts[k], k, u.hasCNI, kernel, cni)
  {
    if |atts| > 0 {
      AttachFromSucceedsIff(u, s, tid, atts, 0, u.hasCNI, kernel, cni);
    } else {
      var (s1, tap) := CreateTap(u, s, DEFAULT_NETWORK, 0, tid, defaultOk);
      if tap.Some? {
        AttachFromSucceedsIff(u, StoreTap(s1, tid, tap.value), tid, [DEFAULT_NETWORK.(address := tap.value.ip)], 0,
                              false, kernel, cni);
      }
    }
  }

  /** Reading digits as a number. */
  function Read(s: string): int {
    if |s| == 0 then 0 else 10 * Read(s[..|s| - 1]) + (s[|s| - 1] as int - '0' as int)
  }

  /** A decimal reads back as its number, in digits, without a leading zero. */
  lemma {:induction false} DecimalReadsBack(n: nat)
    ensures |Decimal(n)| > 0 && Read(Decimal(n)) == n && (n >= 10 ==> |Decimal(n)| > 1 && Decimal(n)[0] != '0')
    ensures (forall c | c in Decimal(n) :: '0' <= c <= '9') && (1 <= n ==> Decimal(n)[0] != '0')
  {
    var d := "0123456789";
    assert forall k | 0 <= k < 10 :: d[k] as int == '0' as int + k;
    if n >= 10 {
      DecimalReadsBack(n / 10);
      assert Decimal(n)[..|Decimal(n)| - 1] == Decimal(n / 10);
    } else {
      assert Decimal(n) == [d[n]] && Read([]) == 0 && [d[n]][..0] == [];
    }
  }

  /** The devices of one task have different names. */
  lemma NamesDiffer(u: Setup, tid: string, i: nat, j: nat)
    ensures TapName(u, tid, i) == TapName(u, tid, j) <==> i == j
  {
    DecimalReadsBack(i);
    DecimalReadsBack(j);
    var front := "tap-" + u.digest(tid) + "-";
    assert TapName(u, tid, i)[|front|..] == Decimal(i) && TapName(u, tid, j)[|front|..] == Decimal(j);
  }

  /** The key of the k-th device. */
  function KeyAt(u: Setup, tid: string, k: nat): string {
    tid + "-" + ("tap-" + u.digest(tid) + "-" + Decimal(k))
  }

  lemma KeysDiffer(u: Setup, tid: string, i: nat, j: nat)
    ensures KeyAt(u, tid, i) == KeyAt(u, tid, j) <==> i == j
  {
    NamesDiffer(u, tid, i, j);
    var front := tid + "-";
    assert KeyAt(u, tid, i)[|front|..] == TapName(u, tid, i) && KeyAt(u, tid, j)[|front|..] == TapName(u, tid, j);
  }

  /** Between s and t exactly the devices from i to n have been stored, with the addresses of
      these attachments. */
  ghost predicate StoredBetween(u: Setup, s: State, t: State, tid: string, atts: seq<Attachment>, i: nat) {
    && (forall k | i <= k < |atts| ::
          KeyAt(u, tid, k) in t.taps && t.taps[KeyAt(u, tid, k)] == Tap(TapName(u, tid, k), atts[k].address))
    && (forall key | key in s.taps || key in t.taps ::
          || (exists k :: i <= k < |atts| && key == KeyAt(u, tid, k))
          || (key in s.taps && key in t.taps && t.taps[key] == s.taps[key]))
  }

  /** A loop of createTapDevice calls that succeeds leaves one TAP for each attachment, under
      names that differ, with the address that its attachment has afterwards, and touches no
      other. An address an attachment had is kept. */
  lemma {:induction false} DevicesStored(u: Setup, s: State, tid: string, atts: seq<Attachment>, i: nat, viaCNI: bool,
                                         kernel: nat -> bool, cni: nat -> CniResult)
    requires Usable(u) && i <= |atts| && AttachFrom(u, s, tid, atts, i, viaCNI, kernel, cni).2
    requires viaCNI ==> forall k | i <= k < |atts| :: atts[k].address.None?
    ensures var (t, atts1, _) := AttachFrom(u, s, tid, atts, i, viaCNI, kernel, cni);
            && |atts1| == |atts| && StoredBetween(u, s, t, tid, atts1, i)
            && (forall k | 0 <= k < |atts| :: atts1[k].network == atts[k].network)
            && (forall k | 0 <= k < |atts| && (k < i || atts[k].address.Some?) :: atts1[k] == atts[k])
    decreases |atts| - i
  {
    if i < |atts| {
      AttachResult(u, s, tid, atts[i], i, viaCNI, kernel(i), cni(i));
      var (s1, att, ok) := AttachOne(u, s, tid, atts[i], i, viaCNI, kernel(i), cni(i));
      DevicesStored(u, s1, tid, atts[i := att], i + 1, viaCNI, kernel, cni);
      var (t, atts1, _) := AttachFrom(u, s1, tid, atts[i := att], i + 1, viaCNI, kernel, cni);
      StoredOneMore(u, s, s1, t, tid, atts1, i);
    }
  }

  lemma StoredOneMore(u: Setup, s: State, s1: State, t: State, tid: string, atts: seq<Attachment>, i: nat)
    requires i < |atts| && StoredBetween(u, s1, t, tid, atts, i + 1)
    requires s1.taps == s.taps[KeyAt(u, tid, i) := Tap(TapName(u, tid, i), atts[i].address)]
    ensures StoredBetween(u, s, t, tid, atts, i)
  {
    if k :| i + 1 <= k < |atts| && KeyAt(u, tid, i) == KeyAt(u, tid, k) {
      KeysDiffer(u, tid, i, k);
    }
    assert KeyAt(u, tid, i) in s1.taps;
  }

  /** A PrepareNetwork that succeeds without the CNI plugin leaves exactly one TAP for each
      attachment, the default one included, with the address the attachment has afterwards. */
  lemma PrepareLeaves(u: Setup, s: State, tid: string, atts: seq<Attachment>, defaultOk: bool,
                      kernel: nat -> bool, cni: nat -> CniResult)
    requires Usable(u) && OneAddressEach(s.table) && Prepare(u, s, tid, atts, defaultOk, kernel, cni).2
    requires !u.hasCNI || NoAddresses(atts)
    ensures var (t, atts1, _) := Prepare(u, s, tid, atts, defaultOk, kernel, cni);
            && StoredBetween(u, s, t, tid, atts1, 0)
            && (|atts| == 0 ==> |atts1| == 1 && atts1[0].network == "default")
            && (|atts| > 0 ==> |atts1| == |atts|)
            && (forall k | 0 <= k < |atts| :: atts1[k].network == atts[k].network)
            && (forall k | 0 <= k < |atts| && atts[k].address.Some? :: atts1[k] == atts[k])
  {
    if |atts| > 0 {
      DevicesStored(u, s, tid, atts, 0, u.hasCNI, kernel, cni);
    } else {
      var (s1, tap) := CreateTap(u, s, DEFAULT_NETWORK, 0, tid, defaultOk);
      DefaultStored(u, s, tid, tap.value.ip, s1, kernel, cni);
    }
  }

  lemma DefaultStored(u: Setup, s: State, tid: string, ip: Option<nat>, s1: State, kernel: nat -> bool,
                      cni: nat -> CniResult)
    requires Usable(u) && s1.taps == s.taps && kernel(0)
    ensures var att := DEFAULT_NETWORK.(address := ip);
            var t := StoreTap(s1, tid, Tap(TapName(u, tid, 0), ip));
            var (w, atts1, _) := AttachFrom(u, t, tid, [att], 0, false, kernel, cni);
            |atts1| == 1 && atts1[0].network == "default" && StoredBetween(u, s, w, tid, atts1, 0)
  {
    var att := DEFAULT_NETWORK.(address := ip);
    var t := StoreTap(s1, tid, Tap(TapName(u, tid, 0), ip));
    AttachFromSucceedsIff(u, t, tid, [att], 0, false, kernel, cni);
    DevicesStored(u, t, tid, [att], 0, false, kernel, cni);
    var (w, atts1, _) := AttachFrom(u, t, tid, [att], 0, false, kernel, cni);
    assert KeyAt(u, tid, 0) == Prefix(tid) + TapName(u, tid, 0);
    forall key | key in s.taps || key in w.taps
      ensures (exists k :: 0 <= k < |atts1| && key == KeyAt(u, tid, k))
           || (key in s.taps && key in w.taps && w.taps[key] == s.taps[key])
    {
      if key == KeyAt(u, tid, 0) {
        assert 0 <= 0 < |atts1|;
      }
    }
  }

  /** CleanupNetwork, on its result: exactly the TAPs whose key starts with the identifier and a
      dash go, and with an allocator exactly the addresses that they carry leave the table. */
  lemma CleanupResult(u: Setup, s: State, tid: string)
    ensures var t := Cleanup(u, s, tid);
            && (forall key :: key in t.taps <==> key in s.taps && !(tid + "-" <= key))
            && (forall key | key in t.taps :: t.taps[key] == s.taps[key])
            && (forall a :: a in t.table <==>
                  && a in s.table
                  && (u.plan.None? || forall key | key in s.taps && tid + "-" <= key :: s.taps[key].ip != Some(a)))
            && (forall a | a in t.table :: t.table[a] == s.table[a])
  {
  }

  // ----- What keeps the tables in step -----

  /** Storing a TAP keeps the tables in step exactly when the table backs its address. */
  lemma StoreKeepsAgreeIff(ids: set<string>, s: State, tid: string, tap: Tap)
    requires PrefixFree(ids) && Agree(ids, s) && tid in ids
    ensures Agree(ids, StoreTap(s, tid, tap)) <==> Backs(s.table, tid, tap.ip)
  {
    var w, stored := StoreTap(s, tid, tap), Prefix(tid) + tap.name;
    KeyHasPrefix(tid, tap.name);
    if Backs(s.table, tid, tap.ip) {
      forall key | key in w.taps
        ensures exists owner :: owner in ids && Prefix(owner) <= key && Backed(w, key, owner)
      {
        if key == stored {
          assert Backed(w, key, tid);
        } else {
          var owner :| owner in ids && Prefix(owner) <= key && Backed(s, key, owner);
          assert Backed(w, key, owner);
        }
      }
    } else if Agree(ids, w) {
      var owner :| owner in ids && Prefix(owner) <= stored && Backed(w, stored, owner);
      PrefixesOfOneKey(owner, tid, stored);
    }
  }

  /** Allocating for a known task keeps them in step, and backs what it gives. */
  lemma CreateKeepsAgree(u: Setup, ids: set<string>, s: State, att: Attachment, i: nat, tid: string, ok: bool)
    requires Usable(u) && Agree(ids, s)
    ensures var (s1, tap) := CreateTap(u, s, att, i, tid, ok);
            && s1.taps == s.taps && Agree(ids, s1)
            && (att.address.Some? ==> s1 == s)
            && (att.address.None? && tap.Some? ==> Backs(s1.table, tid, tap.value.ip))
            && forall a: Option<nat> | Backs(s.table, tid, a) :: Backs(s1.table, tid, a)
  {
    var (s1, tap) := CreateTap(u, s, att, i, tid, ok);
    if u.plan.Some? {
      AllocationKeepsOne(u.plan.value, s.table, tid);
    }
    forall key | key in s1.taps
      ensures exists owner :: owner in ids && Prefix(owner) <= key && Backed(s1, key, owner)
    {
      var owner :| owner in ids && Prefix(owner) <= key && Backed(s, key, owner);
      assert Backed(s1, key, owner);
    }
  }

  /** The address that the attachment, or the CNI plugin for it, puts on a TAP without asking
      the allocator. */
  function Brought(att: Attachment, viaCNI: bool, kernelOk: bool, cni: CniResult): Option<nat> {
    if viaCNI && att.address.Some? then (if cni.CniInterface? then Some(cni.ip) else None)
    else if kernelOk then att.address
    else None
  }

  /** Attaching keeps the tables in step exactly when the table already backs that address. */
  lemma AttachKeepsAgreeIff(u: Setup, ids: set<string>, s: State, tid: string, att: Attachment, i: nat, viaCNI: bool,
                            ok: bool, cni: CniResult)
    requires Usable(u) && PrefixFree(ids) && Agree(ids, s) && tid in ids
    ensures Agree(ids, AttachOne(u, s, tid, att, i, viaCNI, ok, cni).0) <==>
            Backs(s.table, tid, Brought(att, viaCNI, ok, cni))
    ensures Backs(s.table, tid, Brought(att, viaCNI, ok, cni)) ==>
              forall a: Option<nat> | Backs(s.table, tid, a) ::
                Backs(AttachOne(u, s, tid, att, i, viaCNI, ok, cni).0.table, tid, a)
  {
    if viaCNI && att.address.Some? {
      if cni.CniInterface? {
        StoreKeepsAgreeIff(ids, s, tid, Tap(cni.name, Some(cni.ip)));
      }
    } else {
      CreateKeepsAgree(u, ids, s, att, i, tid, ok);
      var (s1, tap) := CreateTap(u, s, att, i, tid, ok);
      if tap.Some? {
        StoreKeepsAgreeIff(ids, s1, tid, tap.value);
      }
    }
  }

  lemma CleanupKeepsAgree(u: Setup, ids: set<string>, s: State, tid: string)
    requires PrefixFree(ids) && Agree(ids, s) && tid in ids
    ensures Agree(ids, Cleanup(u, s, tid))
  {
  }

  // ----- Runs -----

  /** The manager together with the attachments of the tasks, which it fills in. */
  datatype System = System(s: State, tasks: map<string, seq<Attachment>>)

  /** A task arrives with its attachments; a task without any gets the default TAP; one of the
      attachments of a task is attached; a task is cleaned up. PrepareNetwork is a sequence of
      such steps, between which those of other tasks may come. */
  datatype Op =
    | TaskOp(tid: string, atts: seq<Attachment>)
    | DefaultOp(tid: string, ok: bool)
    | AttachOp(tid: string, i: nat, viaCNI: bool, ok: bool, cni: CniResult)
    | CleanupOp(tid: string)

  ghost function Step(u: Setup, y: System, op: Op): System
    requires Usable(u)
  {
    match op
    case TaskOp(tid, atts) => y.(tasks := y.tasks[tid := atts])
    case DefaultOp(tid, ok) => if tid in y.tasks && y.tasks[tid] == [] then DefaultStep(u, y, tid, ok) else y
    case AttachOp(tid, i, viaCNI, ok, cni) =>
      if tid in y.tasks && i < |y.tasks[tid]| then
        var (s1, att, _) := AttachOne(u, y.s, tid, y.tasks[tid][i], i, viaCNI, ok, cni);
        System(s1, y.tasks[tid := y.tasks[tid][i := att]])
      else y
    case CleanupOp(tid) => y.(s := Cleanup(u, y.s, tid))
  }

  ghost function DefaultStep(u: Setup, y: System, tid: string, ok: bool): System
    requires Usable(u)
  {
    match CreateTap(u, y.s, DEFAULT_NETWORK, 0, tid, ok)
    case (s1, None) => y.(s := s1)
    case (s1, Some(tap)) =>
      System(StoreTap(s1, tid, tap), y.tasks[tid := [DEFAULT_NETWORK.(address := tap.ip)]])
  }

  /** What must hold before a step: an address that is not asked of the allocator is in the
      table under the task. */
  predicate Owed(y: System, op: Op) {
    op.AttachOp? && op.tid in y.tasks && op.i < |y.tasks[op.tid]| ==>
      Backs(y.s.table, op.tid, Brought(y.tasks[op.tid][op.i], op.viaCNI, op.ok, op.cni))
  }

  lemma StepKeepsAgreeIff(u: Setup, ids: set<string>, y: System, op: Op)
    requires Usable(u) && PrefixFree(ids) && Agree(ids, y.s) && op.tid in ids
    ensures Agree(ids, Step(u, y, op).s) <==> Owed(y, op)
  {
    match op
    case TaskOp(_, _) =>
    case DefaultOp(tid, ok) =>
      CreateKeepsAgree(u, ids, y.s, DEFAULT_NETWORK, 0, tid, ok);
      var (s1, tap) := CreateTap(u, y.s, DEFAULT_NETWORK, 0, tid, ok);
      if tap.Some? {
        StoreKeepsAgreeIff(ids, s1, tid, tap.value);
      }
    case AttachOp(tid, i, viaCNI, ok, cni) =>
      if tid in y.tasks && i < |y.tasks[tid]| {
        AttachKeepsAgreeIff(u, ids, y.s, tid, y.tasks[tid][i], i, viaCNI, ok, cni);
      }
    case CleanupOp(tid) => CleanupKeepsAgree(u, ids, y.s, tid);
  }

  const EMPTY := System(State(map[], map[]), map[])

  /** The systems a run on known tasks passes through. */
  ghost predicate IsRun(u: Setup, ids: set<string>, ops: seq<Op>, trace: seq<System>)
    requires Usable(u)
  {
    && |trace| == |ops| + 1 && trace[0] == EMPTY
    && forall k | 0 <= k < |ops| :: ops[k].tid in ids && trace[k + 1] == Step(u, trace[k], ops[k])
  }

  /** Over every run, of successful and failed steps on any attachments and in any interleaving
      of tasks, each address on a TAP is in the table under the task of that TAP up to moment n
      exactly when every step before it did what is owed. */
  lemma RunsAgreeIff(u: Setup, ids: set<string>, ops: seq<Op>, trace: seq<System>, n: nat)
    requires Usable(u) && PrefixFree(ids) && IsRun(u, ids, ops, trace) && n < |trace|
    ensures (forall k | 0 <= k <= n :: Agree(ids, trace[k].s)) <==> (forall k | 0 <= k < n :: Owed(trace[k], ops[k]))
  {
    var good := seq(n + 1, k requires 0 <= k <= n => Agree(ids, trace[k].s));
    var owed := seq(n, k requires 0 <= k < n => Owed(trace[k], ops[k]));
    forall k | 0 <= k < n && good[k]
      ensures good[k + 1] <==> owed[k]
    {
      StepKeepsAgreeIff(u, ids, trace[k], ops[k]);
    }
    FirstFailure(good, owed);
    assert forall k | 0 <= k <= n :: good[k] == Agree(ids, trace[k].s);
    assert forall k | 0 <= k < n :: owed[k] == Owed(trace[k], ops[k]);
  }

  // ----- PrepareNetwork as steps -----

  ghost function Steps(u: Setup, y: System, ops: seq<Op>): System
    requires Usable(u)
    decreases |ops|
  {
    if |ops| == 0 then y else Steps(u, Step(u, y, ops[0]), ops[1..])
  }

  /** The steps of the loop from attachment i on, up to the first failure. */
  ghost function AttachSteps(u: Setup, y: System, tid: string, i: nat, viaCNI: bool, kernel: nat -> bool,
                             cni: nat -> CniResult): seq<Op>
    requires Usable(u) && tid in y.tasks && i <= |y.tasks[tid]|
    decreases |y.tasks[tid]| - i
  {
    if i == |y.tasks[tid]| then []
    else
      var op := AttachOp(tid, i, viaCNI, kernel(i), cni(i));
      if AttachOne(u, y.s, tid, y.tasks[tid][i], i, viaCNI, kernel(i), cni(i)).2
      then [op] + AttachSteps(u, Step(u, y, op), tid, i + 1, viaCNI, kernel, cni)
      else [op]
  }

  ghost function PrepareSteps(u: Setup, y: System, tid: string, defaultOk: bool, kernel: nat -> bool,
                              cni: nat -> CniResult): seq<Op>
    requires Usable(u) && tid in y.tasks
  {
    if |y.tasks[tid]| > 0 then AttachSteps(u, y, tid, 0, u.hasCNI, kernel, cni)
    else if defaultOk then
      [DefaultOp(tid, true)] + AttachSteps(u, Step(u, y, DefaultOp(tid, true)), tid, 0, false, kernel, cni)
    else [DefaultOp(tid, false)]
  }

  lemma {:induction false} AttachFromIsSteps(u: Setup, y: System, tid: string, i: nat, viaCNI: bool,
                                             kernel: nat -> bool, cni: nat -> CniResult)
    requires Usable(u) && tid in y.tasks && i <= |y.tasks[tid]|
    ensures var (s1, atts, _) := AttachFrom(u, y.s, tid, y.tasks[tid], i, viaCNI, kernel, cni);
            Steps(u, y, AttachSteps(u, y, tid, i, viaCNI, kernel, cni)) == System(s1, y.tasks[tid := atts])
    decreases |y.tasks[tid]| - i
  {
    var atts := y.tasks[tid];
    if i == |atts| {
      assert y.tasks[tid := atts] == y.tasks;
    } else {
      var op := AttachOp(tid, i, viaCNI, kernel(i), cni(i));
      var z := Step(u, y, op);
      var (s1, att, ok) := AttachOne(u, y.s, tid, atts[i], i, viaCNI, kernel(i), cni(i));
      if ok {
        AttachFromIsSteps(u, z, tid, i + 1, viaCNI, kernel, cni);
        var rest := AttachSteps(u, z, tid, i + 1, viaCNI, kernel, cni);
        assert ([op] + rest)[1..] == rest;
        var last := AttachFrom(u, s1, tid, atts[i := att], i + 1, viaCNI, kernel, cni).1;
        assert y.tasks[tid := atts[i := att]][tid := last] == y.tasks[tid := last];
      } else {
        assert att == atts[i] && atts[i := att] == atts;
        assert [op][1..] == [] && Steps(u, z, []) == z;
      }
    }
  }

  /** A PrepareNetwork that runs undisturbed is a sequence of steps. */
  lemma PrepareIsSteps(u: Setup, y: System, tid: string, defaultOk: bool, kernel: nat -> bool, cni: nat -> CniResult)
    requires Usable(u) && tid in y.tasks
    ensures var (s1, atts, _) := Prepare(u, y.s, tid, y.tasks[tid], defaultOk, kernel, cni);
            Steps(u, y, PrepareSteps(u, y, tid, defaultOk, kernel, cni)) == System(s1, y.tasks[tid := atts])
  {
    if |y.tasks[tid]| > 0 {
      AttachFromIsSteps(u, y, tid, 0, u.hasCNI, kernel, cni);
    } else {
      var op := DefaultOp(tid, defaultOk);
      var z := Step(u, y, op);
      if defaultOk {
        AttachFromIsSteps(u, z, tid, 0, false, kernel, cni);
        var rest := AttachSteps(u, z, tid, 0, false, kernel, cni);
        assert ([op] + rest)[1..] == rest;
        var last := AttachFrom(u, z.s, tid, z.tasks[tid], 0, false, kernel, cni).1;
        assert z.tasks[tid := last] == y.tasks[tid := last];
      } else {
        assert [op][1..] == [] && Steps(u, z, []) == z;
        assert y.tasks[tid := y.tasks[tid]] == y.tasks;
      }
    }
  }

  /** A PrepareNetwork keeps the tables in step whatever fails in it when the table backs every
      address its attachments carry, or they carry none. */
  lemma PrepareKeepsAgree(u: Setup, ids: set<string>, s: State, tid: string, atts: seq<Attachment>, defaultOk: bool,
                          kernel: nat -> bool, cni: nat -> CniResult)
    requires Usable(u) && PrefixFree(ids) && Agree(ids, s) && tid in ids
    requires NoAddresses(atts) || (!u.hasCNI && forall k | 0 <= k < |atts| :: Backs(s.table, tid, atts[k].address))
    ensures Agree(ids, Prepare(u, s, tid, atts, defaultOk, kernel, cni).0)
  {
    if |atts| > 0 {
      AttachFromKeepsAgree(u, ids, s, tid, atts, 0, u.hasCNI, kernel, cni);
    } else {
      CreateKeepsAgree(u, ids, s, DEFAULT_NETWORK, 0, tid, defaultOk);
      var (s1, tap) := CreateTap(u, s, DEFAULT_NETWORK, 0, tid, defaultOk);
      if tap.Some? {
        StoreKeepsAgreeIff(ids, s1, tid, tap.value);
        AttachFromKeepsAgree(u, ids, StoreTap(s1, tid, tap.value), tid,
                             [DEFAULT_NETWORK.(address := tap.value.ip)], 0, false, kernel, cni);
      }
    }
  }

  lemma {:induction false} AttachFromKeepsAgree(u: Setup, ids: set<string>, s: State, tid: string, atts: seq<Attachment>,
                                                i: nat, viaCNI: bool, kernel: nat -> bool, cni: nat -> CniResult)
    requires Usable(u) && PrefixFree(ids) && Agree(ids, s) && tid in ids && i <= |atts|
    requires forall k | i <= k < |atts| :: Backs(s.table, tid, atts[k].address) && (viaCNI ==> atts[k].address.None?)
    ensures Agree(ids, AttachFrom(u, s, tid, atts, i, viaCNI, kernel, cni).0)
    decreases |atts| - i
  {
    if i < |atts| {
      AttachKeepsAgreeIff(u, ids, s, tid, atts[i], i, viaCNI, kernel(i), cni(i));
      var (s1, att, ok) := AttachOne(u, s, tid, atts[i], i, viaCNI, kernel(i), cni(i));
      if ok {
        AttachFromKeepsAgree(u, ids, s1, tid, atts[i := att], i + 1, viaCNI, kernel, cni);
      }
    }
  }

  /** What CleanupNetwork leaves in the attachments breaks the tables when the task is prepared
      again: the second PrepareNetwork takes the address of the first without asking for it, and
      the next VM with the same preferred address is given it too. */
  lemma SecondPrepareBreaks(p: Plan, digest: string -> string, tid: string, other: string, network: string)
    requires p.subnet.ones >= 1 && Preferred(p, tid) == Preferred(p, other) != p.gateway.Num()
    ensures var u := Setup(Some(p), true, false, digest);
            var always, none := (i: nat) => true, (i: nat) => CniEmpty;
            var (s1, atts1, ok1) := Prepare(u, State(map[], map[]), tid, [Attachment(network, None)], true, always, none);
            var s2 := Cleanup(u, s1, tid);
            var (s3, _, ok3) := Prepare(u, s2, tid, atts1, true, always, none);
            var key := Prefix(tid) + TapName(u, tid, 0);
            && ok1 && ok3 && s2 == State(map[], map[]) && s3.table == map[] && !Agree({tid}, s3)
            && key in s3.taps && s3.taps[key].ip == Some(Preferred(p, tid))
            && Assign(p, s3.table, other).1 == Some(Preferred(p, tid))
  {
    var u := Setup(Some(p), true, false, digest);
    var always, none := (i: nat) => true, (i: nat) => CniEmpty;
    var s0, att := State(map[], map[]), Attachment(network, None);
    var a, key := Preferred(p, tid), Prefix(tid) + TapName(u, tid, 0);
    PlacedAtPreferred(p, tid);
    PlacedAtPreferred(p, other);
    var (s1, att1, ok1) := AttachOne(u, s0, tid, att, 0, false, true, CniEmpty);
    OneAttached(u, s0, tid, att, always, none);
    CleanupRestores(u, s0, tid, [att], true, always, none);
    OneAttached(u, s0, tid, att1, always, none);
    var s3 := AttachOne(u, s0, tid, att1, 0, false, true, CniEmpty).0;
    AttachKeepsAgreeIff(u, {tid}, s0, tid, att1, 0, false, true, CniEmpty);
  }

  lemma OneAttached(u: Setup, s: State, tid: string, att: Attachment, kernel: nat -> bool, cni: nat -> CniResult)
    requires Usable(u) && !u.hasCNI && kernel(0)
    ensures Prepare(u, s, tid, [att], true, kernel, cni) ==
            var (s1, att1, ok) := AttachOne(u, s, tid, att, 0, false, true, cni(0)); (s1, [att1], ok)
  {
    var (s1, att1, ok) := AttachOne(u, s, tid, att, 0, false, true, cni(0));
    assert [att][0 := att1] == [att1];
    assert AttachFrom(u, s1, tid, [att1], 1, false, kernel, cni) == (s1, [att1], true);
  }

  lemma PlacedAtPreferred(p: Plan, vm: string)
    requires p.subnet.ones >= 1 && Preferred(p, vm) != p.gateway.Num()
    ensures Assign(p, map[], vm) == (map[Preferred(p, vm) := vm], Some(Preferred(p, vm)))
  {
  }

  // ----- Whose TAPs a cleanup removes -----

  /** CleanupNetwork of one task leaves the TAPs of another alone, whatever names they
      carry, exactly when neither identifier-and-dash starts the other. */
  lemma CleanupSparesIff(u: Setup, tid: string, other: string)
    ensures !(Prefix(tid) <= Prefix(other)) && !(Prefix(other) < Prefix(tid)) <==>
            forall s: State, name: string | Prefix(other) + name in s.taps ::
              Prefix(other) + name in Cleanup(u, s, tid).taps
  {
    if Prefix(tid) <= Prefix(other) {
      var s := State(map[Prefix(other) + "" := Tap("", None)], map[]);
      assert Prefix(tid) <= Prefix(other) + "";
      assert Prefix(other) + "" in s.taps && Prefix(other) + "" !in Cleanup(u, s, tid).taps;
    } else if Prefix(other) < Prefix(tid) {
      var name := Prefix(tid)[|Prefix(other)|..];
      assert Prefix(other) + name == Prefix(tid);
      var s := State(map[Prefix(other) + name := Tap("", None)], map[]);
      assert Prefix(other) + name in s.taps && Prefix(other) + name !in Cleanup(u, s, tid).taps;
    } else {
      forall s: State, name: string | Prefix(other) + name in s.taps
        ensures Prefix(other) + name in Cleanup(u, s, tid).taps
      {
        var key := Prefix(other) + name;
        if Prefix(tid) <= key {
          KeyHasPrefix(other, name);
          PrefixesOfOneKey(tid, other, key);
        }
      }
    }
  }

  /** For the names that createTapDevice makes, it leaves them alone exactly when its own
      identifier and a dash do not start the other's, and it is not the other identifier
      followed by the beginning of such a name up to a dash. */
  lemma CleanupSparesNamedIff(u: Setup, tid: string, other: string)
    requires '-' !in u.digest(other)
    ensures !(Prefix(tid) <= Prefix(other)) && tid != other + "-tap" && tid != other + "-tap-" + u.digest(other) <==>
            forall s: State, i: nat | Prefix(other) + TapName(u, other, i) in s.taps ::
              Prefix(other) + TapName(u, other, i) in Cleanup(u, s, tid).taps
  {
    if Prefix(tid) <= Prefix(other) || tid == other + "-tap" || tid == other + "-tap-" + u.digest(other) {
      var key := Prefix(other) + TapName(u, other, 0);
      var s := State(map[key := Tap("", None)], map[]);
      StartsNamedIff(u, tid, other, 0);
      assert key in s.taps && key !in Cleanup(u, s, tid).taps;
    } else {
      forall s: State, i: nat | Prefix(other) + TapName(u, other, i) in s.taps
        ensures Prefix(other) + TapName(u, other, i) in Cleanup(u, s, tid).taps
      {
        StartsNamedIff(u, tid, other, i);
      }
    }
  }

  lemma StartsNamedIff(u: Setup, tid: string, other: string, i: nat)
    requires '-' !in u.digest(other)
    ensures Prefix(tid) <= Prefix(other) + TapName(u, other, i) <==>
            Prefix(tid) <= Prefix(other) || tid == other + "-tap" || tid == other + "-tap-" + u.digest(other)
  {
    var d, e := u.digest(other), Decimal(i);
    var key, n := Prefix(other) + TapName(u, other, i), |tid|;
    NoDash(i);
    assert key == other + ("-tap-" + d + "-" + e);
    assert Prefix(tid) <= key <==> n < |key| && key[..n] == tid && key[n] == '-';
    assert key[..|other| + 4] == other + "-tap" && key[|other| + 4] == '-';
    assert key[..|other| + 5 + |d|] == other + "-tap-" + d && key[|other| + 5 + |d|] == '-';
    if Prefix(tid) <= key && n > |other| {
      assert key[n] == ("-tap-" + d + "-" + e)[n - |other|];
      if n - |other| != 4 && n - |other| != 5 + |d| {
        OtherwiseNoDash(d, e, n - |other|);
      }
    } else if Prefix(tid) <= key {
      assert Prefix(other) == key[..|other| + 1];
    }
  }

  lemma OtherwiseNoDash(d: string, e: string, k: nat)
    requires '-' !in d && '-' !in e && 0 < k < |"-tap-" + d + "-" + e| && k != 4 && k != 5 + |d|
    ensures ("-tap-" + d + "-" + e)[k] != '-'
  {
    if 5 <= k < 5 + |d| {
      assert ("-tap-" + d + "-" + e)[k] == d[k - 5];
    } else if k > 5 + |d| {
      assert ("-tap-" + d + "-" + e)[k] == e[k - 6 - |d|];
    }
  }

  lemma {:induction false} NoDash(n: nat)
    ensures '-' !in Decimal(n)
  {
    if n >= 10 {
      NoDash(n / 10);
    }
  }
}

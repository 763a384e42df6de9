/** The persistent VM state store of pkg/runtime/state.go: a map in memory, a JSON file that is
    replaced by rename, and crashes at any point of a save. The JSON encoding is taken as
    injective, so a file's contents are the list of entries it encodes.
 */
module StateStore {
  import opened Options

  /** The text of a last error: none, the fixed text of a reconciliation, or a reported one. */
  datatype ErrorText = NoError | KilledExternally | Reported(text: string)

  /** A VMState; the fields no operation looks at are kept together in details. A start time
      of zero is the unset time. */
  datatype VMState = VMState(id: string, status: string, startTime: nat, lastError: ErrorText, errorTime: nat,
                             details: string)

  type States = map<string, VMState>

  /** What a file holds: a whole encoded list, nothing, or an interrupted write. */
  datatype Content = Encoded(entries: seq<VMState>) | Empty | Torn(length: nat)

  datatype Disk = Disk(file: Option<Content>, tmp: Option<Content>)

  /** How a save goes: the write stops early, the rename fails, or both succeed. */
  datatype Fate = WriteFails(left: Content) | RenameFails | Succeeds

  /** Each entry is filed under its own ID. */
  predicate KeyedByID(m: States) {
    forall id | id in m :: m[id].id == id
  }

  /** The map that Load builds: a later entry replaces an earlier one with its ID. */
  function Rebuild(entries: seq<VMState>): (m: States)
    ensures KeyedByID(m)
  {
    if |entries| == 0 then map[]
    else
      var e := entries[|entries| - 1];
      Rebuild(entries[..|entries| - 1])[e.id := e]
  }

  /** The map a manager starts with when it finds this disk; None is a start-up error. */
  function Recovered(d: Disk): Option<States> {
    match d.file
    case None => Some(map[])
    case Some(Empty) => Some(map[])
    case Some(Torn(_)) => None
    case Some(Encoded(entries)) => Some(Rebuild(entries))
  }

  /** The entries of a map in some iteration order. */
  predicate ListingOf(m: States, entries: seq<VMState>) {
    && (forall e | e in entries :: e.id in m && m[e.id] == e)
    && forall id | id in m :: m[id] in entries
  }

  /** Every disk a save passes through, up to the fate that ends it. */
  function SaveTrail(d: Disk, entries: seq<VMState>, fate: Fate, torn: seq<nat>): seq<Disk> {
    var writing := seq(|torn|, i requires 0 <= i < |torn| => d.(tmp := Some(Torn(torn[i]))));
    match fate
    case WriteFails(left) => [d] + writing + [d.(tmp := Some(left))]
    case RenameFails => [d] + writing + [d.(tmp := Some(Encoded(entries))), d.(tmp := None)]
    case Succeeds => [d] + writing + [d.(tmp := Some(Encoded(entries))), Disk(Some(Encoded(entries)), None)]
  }

  function Last(trail: seq<Disk>): Disk
    requires |trail| > 0
  {
    trail[|trail| - 1]
  }

  /** The disks passed through when the map is saved, in some order, or when nothing is. */
  ghost predicate SavedAlong(trail: seq<Disk>, d: Disk, attempted: bool, m: States, fate: Fate, torn: seq<nat>) {
    if attempted then exists entries :: ListingOf(m, entries) && trail == SaveTrail(d, entries, fate, torn)
    else trail == [d]
  }

  // ----- What each operation does to the map -----

  function Defaulted(s: VMState, now: nat): VMState {
    var timed := if s.startTime == 0 then s.(startTime := now) else s;
    if timed.status == "" then timed.(status := "running") else timed
  }

  function Added(m: States, s: VMState, now: nat, saved: bool): States {
    if saved then m[s.id := Defaulted(s, now)] else m - {s.id}
  }

  /** Marked running, but no process answers to it. */
  predicate Stale(m: States, alive: string -> bool, id: string) {
    id in m && m[id].status == "running" && !alive(id)
  }

  function StaleOnes(m: States, alive: string -> bool): set<string> {
    set id | id in m && Stale(m, alive, id)
  }

  function Stopped(s: VMState, now: nat): VMState {
    s.(status := "stopped", lastError := KilledExternally, errorTime := now)
  }

  function Reconciled(m: States, alive: string -> bool, now: nat): States {
    map id | id in m :: if Stale(m, alive, id) then Stopped(m[id], now) else m[id]
  }

  predicate Finished(s: VMState) {
    s.status == "stopped" || s.status == "error"
  }

  function FinishedOnes(m: States): set<string> {
    set id | id in m && Finished(m[id])
  }

  // ----- The two loops over the map -----

  lemma OneMore(all: set<string>, rest: set<string>, id: string)
    requires id in rest
    ensures id in all ==> |all - (rest - {id})| == |all - rest| + 1
    ensures id !in all ==> all - (rest - {id}) == all - rest
  {
    if id in all {
      assert all - (rest - {id}) == (all - rest) + {id};
    }
  }

  /** The map when only the entries in rest have not been looked at. */
  function ReconciledBut(m: States, alive: string -> bool, now: nat, rest: set<string>): States {
    map id | id in m :: if id !in rest && Stale(m, alive, id) then Stopped(m[id], now) else m[id]
  }

  lemma ReconciledOneMore(m: States, alive: string -> bool, now: nat, rest: set<string>, id: string)
    requires id in rest && id in m
    ensures var r := ReconciledBut(m, alive, now, rest);
            && r[id] == m[id]
            && ReconciledBut(m, alive, now, rest - {id}) ==
               if Stale(m, alive, id) then r[id := Stopped(m[id], now)] else r
  {
  }

  /** The loop of Reconcile, in any iteration order. */
  method ReconcileMap(m: States, alive: string -> bool, now: nat) returns (r: States, count: nat)
    ensures r == Reconciled(m, alive, now) && count == |StaleOnes(m, alive)|
  {
    ghost var stale := StaleOnes(m, alive);
    var rest := m.Keys;
    r, count := m, 0;
    assert stale - rest == {} && ReconciledBut(m, alive, now, rest) == m;
    while rest != {}
      invariant rest <= m.Keys && count == |stale - rest|
      invariant r == ReconciledBut(m, alive, now, rest)
    {
      var id :| id in rest;
      OneMore(stale, rest, id);
      ReconciledOneMore(m, alive, now, rest, id);
      if r[id].status == "running" && !alive(id) {
        r := r[id := r[id].(status := "stopped", lastError := KilledExternally, errorTime := now)];
        count := count + 1;
      }
      rest := rest - {id};
    }
    assert stale - rest == stale;
  }

  /** The map when only the entries in rest have not been looked at. */
  function ClearedBut(m: States, rest: set<string>): States {
    map id | id in m && (id in rest || !Finished(m[id])) :: m[id]
  }

  lemma ClearedOneMore(m: States, rest: set<string>, id: string)
    requires id in rest && id in m
    ensures id in ClearedBut(m, rest) && ClearedBut(m, rest)[id] == m[id]
    ensures ClearedBut(m, rest - {id}) ==
            if Finished(m[id]) then ClearedBut(m, rest) - {id} else ClearedBut(m, rest)
  {
  }

  /** The loop of ClearStale, in any iteration order. */
  method ClearMap(m: States) returns (r: States, count: nat)
    ensures r == m - FinishedOnes(m) && count == |FinishedOnes(m)|
  {
    ghost var finished := FinishedOnes(m);
    var rest := m.Keys;
    r, count := m, 0;
    assert finished - rest == {} && ClearedBut(m, rest) == m;
    while rest != {}
      invariant rest <= m.Keys && count == |finished - rest|
      invariant r == ClearedBut(m, rest)
    {
      var id :| id in rest;
      OneMore(finished, rest, id);
      ClearedOneMore(m, rest, id);
      if r[id].status == "stopped" || r[id].status == "error" {
        r := r - {id};
        count := count + 1;
      }
      rest := rest - {id};
    }
    assert finished - rest == finished && r == m - finished;
  }

  // ----- The object -----

  class StateManager {
    var states: States
    var disk: Disk
    // The map of the last successful save or load.
    ghost var saved: States

    ghost predicate Valid()
      reads this
    {
      KeyedByID(states) && KeyedByID(saved) && Recovered(disk) == Some(saved)
    }

    /** NewStateManager, on the disk it finds. */
    constructor (d: Disk)
      requires Recovered(d).Some?
      ensures Valid() && disk == d && states == saved == Recovered(d).value
    {
      disk := d;
      states := map[];
      saved := map[];
      new;
      var loaded := Load();
      saved := Recovered(d).value;
    }

    /** Load: a missing file and undecodable contents are errors; an empty file changes nothing. */
    method Load() returns (ok: bool)
      modifies this`states
      ensures ok <==> disk.file.Some? && !disk.file.value.Torn?
      ensures states == if disk.file.Some? && disk.file.value.Encoded? then Rebuild(disk.file.value.entries)
                        else old(states)
    {
      if disk.file.None? {
        return false;
      }
      match disk.file.value
      case Empty => ok := true;
      case Torn(_) => ok := false;
      case Encoded(entries) =>
        var m: States := map[];
        for i := 0 to |entries|
          invariant m == Rebuild(entries[..i])
        {
          m := m[entries[i].id := entries[i]];
          assert entries[..i + 1][..i] == entries[..i];
        }
        assert entries[..|entries|] == entries;
        states := m;
        ok := true;
    }

    /** save: lists the map in any order, writes a temporary file and renames it. */
    method Save(fate: Fate, torn: seq<nat>) returns (ok: bool, ghost trail: seq<Disk>)
      requires Valid()
      modifies this`disk, this`saved
      ensures Valid()
      ensures ok == fate.Succeeds?
      ensures saved == if ok then states else old(saved)
      ensures SavedAlong(trail, old(disk), true, states, fate, torn)
      ensures |trail| > 0 && trail[0] == old(disk) && disk == Last(trail)
      ensures forall d | d in trail :: Recovered(d) == Some(old(saved)) || Recovered(d) == Some(states)
    {
      var entries: seq<VMState> := [];
      var rest := states.Keys;
      while rest != {}
        invariant rest <= states.Keys
        invariant forall e | e in entries :: e.id in states && states[e.id] == e
        invariant forall id | id in states.Keys - rest :: states[id] in entries
      {
        var id :| id in rest;
        entries := entries + [states[id]];
        rest := rest - {id};
      }
      trail := SaveTrail(disk, entries, fate, torn);
      SaveTrailAtomic(disk, states, entries, fate, torn);
      match fate {
        case WriteFails(left) =>
          disk := disk.(tmp := Some(left));
        case RenameFails =>
          disk := disk.(tmp := Some(Encoded(entries)));
          disk := disk.(tmp := None);
        case Succeeds =>
          disk := disk.(tmp := Some(Encoded(entries)));
          disk := Disk(disk.tmp, None);
          saved := states;
      }
      ok := fate.Succeeds?;
    }

    method Add(s: VMState, now: nat, fate: Fate, torn: seq<nat>) returns (ok: bool, ghost trail: seq<Disk>)
      requires Valid()
      modifies this
      ensures Valid()
      ensures s.id == "" ==> !ok && states == old(states)
      ensures s.id != "" ==> ok == fate.Succeeds? && states == Added(old(states), s, now, ok)
      ensures saved == if ok then states else old(saved)
      ensures SavedAlong(trail, old(disk), s.id != "", Added(old(states), s, now, true), fate, torn)
      ensures |trail| > 0 && trail[0] == old(disk) && disk == Last(trail)
      ensures forall d | d in trail ::
                Recovered(d) == Some(old(saved)) || Recovered(d) == Some(Added(old(states), s, now, true))
    {
      trail := [disk];
      if s.id == "" {
        return false, trail;
      }
      var filled := s;
      if filled.startTime == 0 {
        filled := filled.(startTime := now);
      }
      if filled.status == "" {
        filled := filled.(status := "running");
      }
      states := states[filled.id := filled];
      ok, trail := Save(fate, torn);
      if !ok {
        assert states - {s.id} == old(states) - {s.id};
        states := states - {s.id};
      }
    }

    method UpdateStatus(id: string, status: string, fate: Fate, torn: seq<nat>)
      returns (ok: bool, ghost trail: seq<Disk>)
      requires Valid()
      modifies this
      ensures Valid()
      ensures ok <==> id in old(states) && fate.Succeeds?
      ensures states == if id in old(states) then old(states)[id := old(states)[id].(status := status)] else old(states)
      ensures saved == if ok then states else old(saved)
      ensures SavedAlong(trail, old(disk), id in old(states), states, fate, torn)
      ensures |trail| > 0 && trail[0] == old(disk) && disk == Last(trail)
      ensures forall d | d in trail :: Recovered(d) == Some(old(saved)) || Recovered(d) == Some(states)
    {
      trail := [disk];
      if id !in states {
        return false, trail;
      }
      states := states[id := states[id].(status := status)];
      ok, trail := Save(fate, torn);
    }

    method UpdateError(id: string, message: ErrorText, now: nat, fate: Fate, torn: seq<nat>)
      returns (ok: bool, ghost trail: seq<Disk>)
      requires Valid()
      modifies this
      ensures Valid()
      ensures ok <==> id in old(states) && fate.Succeeds?
      ensures states == if id in old(states)
                        then old(states)[id := old(states)[id].(lastError := message, errorTime := now, status := "error")]
                        else old(states)
      ensures saved == if ok then states else old(saved)
      ensures SavedAlong(trail, old(disk), id in old(states), states, fate, torn)
      ensures |trail| > 0 && trail[0] == old(disk) && disk == Last(trail)
      ensures forall d | d in trail :: Recovered(d) == Some(old(saved)) || Recovered(d) == Some(states)
    {
      trail := [disk];
      if id !in states {
        return false, trail;
      }
      states := states[id := states[id].(lastError := message, errorTime := now, status := "error")];
      ok, trail := Save(fate, torn);
    }

    method Remove(id: string, fate: Fate, torn: seq<nat>) returns (ok: bool, ghost trail: seq<Disk>)
      requires Valid()
      modifies this
      ensures Valid()
      ensures ok <==> id in old(states) && fate.Succeeds?
      ensures states == old(states) - {id}
      ensures saved == if ok then states else old(saved)
      ensures SavedAlong(trail, old(disk), id in old(states), states, fate, torn)
      ensures |trail| > 0 && trail[0] == old(disk) && disk == Last(trail)
      ensures forall d | d in trail :: Recovered(d) == Some(old(saved)) || Recovered(d) == Some(states)
    {
      trail := [disk];
      if id !in states {
        return false, trail;
      }
      states := states - {id};
      ok, trail := Save(fate, torn);
    }

    /** Reconcile: a failing save is ignored. */
    method Reconcile(alive: string -> bool, now: nat, fate: Fate, torn: seq<nat>)
      returns (count: nat, ghost trail: seq<Disk>)
      requires Valid()
      modifies this
      ensures Valid()
      ensures count == |StaleOnes(old(states), alive)|
      ensures states == Reconciled(old(states), alive, now)
      ensures saved == if count > 0 && fate.Succeeds? then states else old(saved)
      ensures SavedAlong(trail, old(disk), count > 0, states, fate, torn)
      ensures |trail| > 0 && trail[0] == old(disk) && disk == Last(trail)
      ensures forall d | d in trail :: Recovered(d) == Some(old(saved)) || Recovered(d) == Some(states)
    {
      states, count := ReconcileMap(states, alive, now);
      trail := [disk];
      if count > 0 {
        var ok;
        ok, trail := Save(fate, torn);
      }
    }

    /** ClearStale */
    method ClearStale(fate: Fate, torn: seq<nat>) returns (count: nat, ghost trail: seq<Disk>)
      requires Valid()
      modifies this
      ensures Valid()
      ensures count == |FinishedOnes(old(states))| && states == old(states) - FinishedOnes(old(states))
      ensures saved == if count > 0 && fate.Succeeds? then states else old(saved)
      ensures SavedAlong(trail, old(disk), count > 0, states, fate, torn)
      ensures |trail| > 0 && trail[0] == old(disk) && disk == Last(trail)
      ensures forall d | d in trail :: Recovered(d) == Some(old(saved)) || Recovered(d) == Some(states)
    {
      states, count := ClearMap(states);
      trail := [disk];
      if count > 0 {
        var ok;
        ok, trail := Save(fate, torn);
      }
    }
  }

  // ----- Round trip and crash atomicity -----

  lemma {:induction false} RebuildFinds(entries: seq<VMState>, id: string)
    ensures id in Rebuild(entries) <==> exists e :: e in entries && e.id == id
    ensures id in Rebuild(entries) ==> Rebuild(entries)[id] in entries
  {
    if |entries| > 0 {
      var front, last := entries[..|entries| - 1], entries[|entries| - 1];
      assert entries == front + [last];
      RebuildFinds(front, id);
    }
  }

  /** Of several entries with one identifier, Load keeps the last. */
  lemma {:induction false} RebuildKeepsLast(entries: seq<VMState>, i: nat)
    requires i < |entries| && forall j | i < j < |entries| :: entries[j].id != entries[i].id
    ensures entries[i].id in Rebuild(entries) && Rebuild(entries)[entries[i].id] == entries[i]
  {
    var n := |entries| - 1;
    if i < n {
      assert entries[..n][i] == entries[i] && forall j | i < j < n :: entries[..n][j] == entries[j];
      RebuildKeepsLast(entries[..n], i);
    }
  }

  /** Whatever the iteration order, loading a saved map gives back the map. */
  lemma LoadAfterSave(m: States, entries: seq<VMState>)
    requires KeyedByID(m) && ListingOf(m, entries)
    ensures Rebuild(entries) == m
  {
    forall id
      ensures id in Rebuild(entries) <==> id in m
      ensures id in m ==> Rebuild(entries)[id] == m[id]
    {
      RebuildFinds(entries, id);
      if id in m {
        assert m[id] in entries && m[id].id == id;
      }
    }
  }

  /** At every crash point of a save, and when it ends, the file decodes to what it held
      before or to the whole new map; it decodes to the new map in the end exactly when the
      save succeeded, unless that is what it held before. */
  lemma SaveTrailAtomic(d: Disk, m: States, entries: seq<VMState>, fate: Fate, torn: seq<nat>)
    requires KeyedByID(m) && ListingOf(m, entries)
    ensures var trail := SaveTrail(d, entries, fate, torn);
            && |trail| > 0 && trail[0] == d
            && (forall e | e in trail :: Recovered(e) == Recovered(d) || Recovered(e) == Some(m))
            && Recovered(Last(trail)) == if fate.Succeeds? then Some(m) else Recovered(d)
  {
    LoadAfterSave(m, entries);
    var trail := SaveTrail(d, entries, fate, torn);
    forall e | e in trail
      ensures Recovered(e) == Recovered(d) || Recovered(e) == Some(m)
    {
      assert e.file == d.file || e.file == Some(Encoded(entries));
    }
  }

  /** How a save goes: it starts from the disk as it was, each interrupted write leaves a torn
      temporary file, and the file itself is untouched until the end. A success has written the
      whole temporary file before it becomes the file; a rename that fails removes it again; a
      write that fails leaves what it has written. */
  lemma SaveSteps(d: Disk, entries: seq<VMState>, fate: Fate, torn: seq<nat>)
    ensures var trail := SaveTrail(d, entries, fate, torn);
            && |trail| >= |torn| + 2 && trail[0] == d
            && (forall i | 0 <= i < |trail| - 1 :: trail[i].file == d.file)
            && (forall i | 1 <= i <= |torn| :: trail[i].tmp == Some(Torn(torn[i - 1])))
            && match fate
               case Succeeds =>
                 |trail| == |torn| + 3 && trail[|torn| + 1].tmp == Some(Encoded(entries))
                 && Last(trail) == Disk(Some(Encoded(entries)), None)
               case RenameFails =>
                 |trail| == |torn| + 3 && trail[|torn| + 1].tmp == Some(Encoded(entries))
                 && Last(trail) == Disk(d.file, None)
               case WriteFails(left) => |trail| == |torn| + 2 && Last(trail) == Disk(d.file, Some(left))
  {
  }

  /** A manager starts empty without a file or with an empty one, with the entries of a whole one,
      and not at all with a torn one. */
  lemma RecoveredIs(d: Disk)
    ensures Recovered(d).None? <==> d.file.Some? && d.file.value.Torn?
    ensures d.file.None? || d.file.value.Empty? ==> Recovered(d) == Some(map[])
    ensures d.file.Some? && d.file.value.Encoded? ==> Recovered(d) == Some(Rebuild(d.file.value.entries))
  {
  }

  /** An Add whose save fails deletes its entry. What the next successful save leaves on disk
      is what was in memory before that Add exactly when the identifier was new; otherwise the
      earlier entry is lost for good. */
  lemma FailedAddIsUndoneIff(d: Disk, m: States, s: VMState, now: nat, entries: seq<VMState>, torn: seq<nat>)
    requires KeyedByID(m) && ListingOf(Added(m, s, now, false), entries)
    ensures Recovered(Last(SaveTrail(d, entries, Succeeds, torn))) == Some(m) <==> s.id !in m
    ensures s.id in m ==> Recovered(Last(SaveTrail(d, entries, Succeeds, torn))) == Some(m - {s.id})
  {
    SaveTrailAtomic(d, Added(m, s, now, false), entries, Succeeds, torn);
    assert s.id in m ==> s.id !in m - {s.id};
    assert s.id !in m ==> m - {s.id} == m;
  }

  // ----- Reconciliation -----

  /** What Add fills in: an unset status becomes "running" and an unset start time the present
      one; a value that is set is kept, and so is every other field. */
  lemma DefaultedIs(s: VMState, now: nat)
    ensures var r := Defaulted(s, now);
            && r.status == (if s.status == "" then "running" else s.status)
            && r.startTime == (if s.startTime == 0 then now else s.startTime)
            && r == s.(status := r.status, startTime := r.startTime)
  {
  }

  /** Reconcile marks exactly the entries with status "running" that are not alive as "stopped",
      with the reason and the time, and counts them; all others stay as they are. */
  lemma ReconcileIs(m: States, alive: string -> bool, now: nat)
    ensures var r := Reconciled(m, alive, now);
            && r.Keys == m.Keys
            && (forall id | id in m :: id in StaleOnes(m, alive) <==> m[id].status == "running" && !alive(id))
            && (forall id | id in m ::
                  r[id] == if m[id].status == "running" && !alive(id)
                           then m[id].(status := "stopped", lastError := KilledExternally, errorTime := now)
                           else m[id])
            && StaleOnes(m, alive) <= m.Keys
  {
  }

  /** ClearStale removes exactly the entries with status "stopped" or "error" and counts them; all
      others stay as they are. */
  lemma ClearIs(m: States)
    ensures var c := m - FinishedOnes(m);
            && (forall id :: id in c <==> id in m && m[id].status != "stopped" && m[id].status != "error")
            && (forall id | id in c :: c[id] == m[id])
            && (forall id :: id in FinishedOnes(m) <==> id in m && (m[id].status == "stopped" || m[id].status == "error"))
  {
  }

  /** A second Reconcile with the same answers changes nothing and counts nothing. A ClearStale
      after the first leaves exactly the entries that were neither stopped nor in error nor
      running without a process, unchanged: every running VM that is alive is kept, and no entry
      marked as running is without a process. */
  lemma ReconcileThenClear(m: States, alive: string -> bool, now: nat)
    ensures var r := Reconciled(m, alive, now);
            var c := r - FinishedOnes(r);
            && StaleOnes(r, alive) == {} && Reconciled(r, alive, now) == r
            && (forall id :: id in c <==>
                  && id in m && m[id].status != "stopped" && m[id].status != "error"
                  && (m[id].status == "running" ==> alive(id)))
            && (forall id | id in c :: c[id] == m[id])
            && (forall id | id in m && m[id].status == "running" && alive(id) :: id in c)
            && (forall id | id in c && c[id].status == "running" :: alive(id))
  {
    ReconcileIs(m, alive, now);
    ClearIs(Reconciled(m, alive, now));
  }
}

/** The process monitor (`src/process_monitor.c`): a fixed table of
    sixteen entries in shared memory, each naming a process with its
    executable path, arguments, pid, the time of its last heartbeat and
    its expiry interval. Entries are found by scanning from index 0. The
    clock reading and the caller's pid are parameters; the semaphore that
    guards the table is not modelled. */
module ProcessMonitor {
  import opened Base
  import opened Segment
  import opened Registry

  /** `MAX_NUMBER_PROCESS_ENTRIES`. */
  const Entries: nat := 16
  /** `PROCESS_MONITOR_DEFAULT_EXPIRE_INTERVAL`. */
  const DefaultExpire: int := 16
  /** A process name needs `strlen + 1 <= 64` bytes to be registered. */
  const NameLimit: nat := 64
  /** Paths, and the names looked up by the other operations, need
      `strlen + 1 <= 256` bytes. */
  const PathLimit: nat := 256
  /** `sizeof(shared_data_t)` on LP64: sixteen 816-byte entries and a
      32-byte semaphore. */
  const SharedSize: nat := 13088
  const UIntRange: int := 0x1_0000_0000

  /** Conversion of a C integer to `unsigned int`: reduction modulo
      2^32. */
  function U32(x: int): (r: int)
    ensures 0 <= r < UIntRange
    ensures 0 <= x < UIntRange ==> r == x
    ensures (r - x) % UIntRange == 0
  {
    x % UIntRange
  }

  /** `process_monitor_entry_t`; the strings are kept abstract (the
      fixed byte widths of the C arrays are not modelled). */
  datatype Process = Process(
    name: string,
    path: string,
    argv: seq<string>,
    pid: int,
    updateTime: int,
    expireInterval: int,
    inUse: bool)

  type Table = seq<Process>

  /** An all-zero entry. */
  const Zeroed: Process := Process([], [], [], 0, 0, 0, false)

  /** `match_process_name`: an entry in use under this name. */
  predicate Named(e: Process, name: string)
  {
    e.inUse && e.name == name
  }

  /** The names of the entries in use. */
  function Names(t: Table): set<string>
  {
    set i | 0 <= i < |t| && t[i].inUse :: t[i].name
  }

  /** No two entries in use carry the same name. */
  predicate UniqueNames(t: Table)
  {
    forall i, j :: 0 <= i < |t| && 0 <= j < |t| && t[i].inUse && t[j].inUse && t[i].name == t[j].name ==> i == j
  }

  /** `find_entry` with `match_process_name`: the lowest entry in use
      under `name`. */
  function Match(t: Table, name: string): (r: Option<nat>)
    ensures r.None? <==> name !in Names(t)
    ensures r.Some? ==> r.value < |t| && Named(t[r.value], name)
    ensures r.Some? ==> forall i :: 0 <= i < r.value ==> !Named(t[i], name)
  {
    FirstIndex(t, (e: Process) => Named(e, name))
  }

  /** `find_entry` with `match_free`: the lowest entry not in use. */
  function FreeSlot(t: Table): (r: Option<nat>)
    ensures r.None? <==> forall i :: 0 <= i < |t| ==> t[i].inUse
    ensures r.Some? ==> r.value < |t| && !t[r.value].inUse
    ensures r.Some? ==> forall i :: 0 <= i < r.value ==> t[i].inUse
  {
    FirstIndex(t, (e: Process) => !e.inUse)
  }

  /** The arguments copied over the entry's old ones: `strcpy` into
      `argv[0]`, `argv[1]`, ... leaves the later strings of the previous
      occupant in place. */
  function Overlay(prev: seq<string>, args: seq<string>): (r: seq<string>)
    ensures |r| == if |args| >= |prev| then |args| else |prev|
    ensures r[..|args|] == args
    ensures forall k :: |args| <= k < |prev| ==> r[k] == prev[k]
  {
    if |args| >= |prev| then args else args + prev[|args|..]
  }

  /** The result of an operation on the table and the status it returns. */
  datatype Outcome = Outcome(table: Table, status: int)

  /** The sanity check of `register_process` (NULL strings are `None`). */
  predicate RegisterRequest(name: Option<string>, path: Option<string>)
  {
    name.Some? && |name.value| + 1 <= NameLimit && path.Some? && |path.value| + 1 <= PathLimit
  }

  /** The entry `register_process` writes to: the one already in use under
      the name, otherwise the lowest free one. */
  function RegisterSlot(t: Table, name: string): (r: Option<nat>)
    ensures r.Some? ==> r.value < |t|
  {
    var m := Match(t, name);
    if m.Some? then m else FreeSlot(t)
  }

  /** `register_process` at time `now` (seconds of the monotonic clock)
      for a caller with pid `pid`. An entry already in use under the name
      only gets its heartbeat time and pid refreshed; a new name takes the
      lowest free entry, whose expiry interval is left as it was. */
  function Register(t: Table, name: Option<string>, path: Option<string>, argv: seq<string>, now: int, pid: int): (r: Outcome)
    ensures r.status == 0 || r.status == -1
    ensures r.status == -1 ==> r.table == t
    ensures r.status == -1 <==> !RegisterRequest(name, path) || RegisterSlot(t, name.value).None?
    ensures |r.table| == |t|
  {
    if !RegisterRequest(name, path) then Outcome(t, -1)
    else
      var m := Match(t, name.value);
      if m.Some? then
        var i := m.value;
        Outcome(t[i := t[i].(updateTime := U32(now), pid := U32(pid), inUse := true)], 0)
      else
        var f := FreeSlot(t);
        if f.None? then Outcome(t, -1)
        else
          var j := f.value;
          var e := Process(name.value, path.value, Overlay(t[j].argv, argv), U32(pid), U32(now), t[j].expireInterval, true);
          Outcome(t[j := e], 0)
  }

  /** A successful registration writes only its slot, which afterwards is
      in use under the name with the caller's pid and the current time. */
  lemma RegisterSlotWritten(t: Table, name: Option<string>, path: Option<string>, argv: seq<string>, now: int, pid: int)
    requires Register(t, name, path, argv, now, pid).status == 0
    ensures var r := Register(t, name, path, argv, now, pid).table;
            var s := RegisterSlot(t, name.value).value;
            && (forall k :: 0 <= k < |t| && k != s ==> r[k] == t[k])
            && Named(r[s], name.value) && r[s].pid == U32(pid) && r[s].updateTime == U32(now)
            && r[s].expireInterval == t[s].expireInterval
  {
  }

  /** Registering a name already in use takes no new entry: it refreshes
      the heartbeat time and pid of that entry and keeps its path and
      arguments. */
  lemma ReRegisterRefreshes(t: Table, name: string, path: Option<string>, argv: seq<string>, now: int, pid: int)
    requires RegisterRequest(Some(name), path) && name in Names(t)
    ensures var r := Register(t, Some(name), path, argv, now, pid);
            var i := Match(t, name).value;
            && r.status == 0
            && r.table == t[i := t[i].(pid := U32(pid), updateTime := U32(now))]
            && Names(r.table) == Names(t)
  {
    var r := Register(t, Some(name), path, argv, now, pid);
    var i := Match(t, name).value;
    assert t[i].(pid := U32(pid), updateTime := U32(now), inUse := true) == t[i].(pid := U32(pid), updateTime := U32(now));
    WriteSameName(t, i, t[i].(pid := U32(pid), updateTime := U32(now)));
  }

  /** A new name occupies the lowest entry not in use, and every entry
      below it is in use. That entry keeps the expiry interval of its
      previous occupant and the arguments beyond the new ones. */
  lemma NewNameTakesLowestFree(t: Table, name: string, path: string, argv: seq<string>, now: int, pid: int)
    requires RegisterRequest(Some(name), Some(path)) && name !in Names(t)
    requires FreeSlot(t).Some?
    ensures var r := Register(t, Some(name), Some(path), argv, now, pid);
            var j := FreeSlot(t).value;
            && r.status == 0
            && (forall k :: 0 <= k < j ==> t[k].inUse)
            && r.table[j].name == name && r.table[j].path == path && r.table[j].inUse
            && r.table[j].argv == Overlay(t[j].argv, argv)
            && r.table[j].expireInterval == t[j].expireInterval
  {
  }

  /** With every entry in use and the name not among them, registration
      fails and changes nothing. */
  lemma FullTableRefuses(t: Table, name: string, path: string, argv: seq<string>, now: int, pid: int)
    requires forall i :: 0 <= i < |t| ==> t[i].inUse
    requires name !in Names(t)
    ensures Register(t, Some(name), Some(path), argv, now, pid) == Outcome(t, -1)
  {
  }

  /** Filling an entry that is not in use adds its name, if it is put in
      use, and keeps the names unique when that name is new. */
  lemma WriteFreeEntry(t: Table, j: nat, e: Process)
    requires j < |t| && !t[j].inUse
    ensures Names(t[j := e]) == Names(t) + (if e.inUse then {e.name} else {})
    ensures UniqueNames(t) && (e.inUse ==> e.name !in Names(t)) ==> UniqueNames(t[j := e])
  {
    var u := t[j := e];
    forall n | n in Names(t)
      ensures n in Names(u)
    {
      var k :| 0 <= k < |t| && t[k].inUse && t[k].name == n;
      assert u[k] == t[k];
    }
    if e.inUse {
      assert u[j].inUse && u[j].name == e.name;
    }
  }

  /** Rewriting an entry in use without changing its name or releasing it
      keeps the names, and their uniqueness. */
  lemma WriteSameName(t: Table, i: nat, e: Process)
    requires i < |t| && t[i].inUse && e.inUse && e.name == t[i].name
    ensures Names(t[i := e]) == Names(t)
    ensures UniqueNames(t) ==> UniqueNames(t[i := e])
  {
    var u := t[i := e];
    forall n | n in Names(t)
      ensures n in Names(u)
    {
      var k :| 0 <= k < |t| && t[k].inUse && t[k].name == n;
      assert u[k].inUse && u[k].name == n;
    }
    forall n | n in Names(u)
      ensures n in Names(t)
    {
      var k :| 0 <= k < |u| && u[k].inUse && u[k].name == n;
      assert t[k].inUse && t[k].name == n;
    }
  }

  /** Releasing the only entry under a name removes exactly that name. */
  lemma ReleaseEntry(t: Table, i: nat)
    requires i < |t| && t[i].inUse && UniqueNames(t)
    ensures Names(t[i := t[i].(inUse := false)]) == Names(t) - {t[i].name}
    ensures UniqueNames(t[i := t[i].(inUse := false)])
  {
    var u := t[i := t[i].(inUse := false)];
    forall n | n in Names(t) - {t[i].name}
      ensures n in Names(u)
    {
      var k :| 0 <= k < |t| && t[k].inUse && t[k].name == n;
      assert u[k] == t[k];
    }
  }

  /** Registration keeps the names unique; when it succeeds the name is in
      use afterwards and no other name was added or dropped. */
  lemma RegisterKeepsNamesUnique(t: Table, name: Option<string>, path: Option<string>, argv: seq<string>, now: int, pid: int)
    requires UniqueNames(t)
    ensures var r := Register(t, name, path, argv, now, pid);
            && UniqueNames(r.table)
            && (r.status == 0 ==> Names(r.table) == Names(t) + {name.value})
  {
    var r := Register(t, name, path, argv, now, pid);
    if r.status == 0 {
      var m := Match(t, name.value);
      if m.Some? {
        var i := m.value;
        WriteSameName(t, i, t[i].(updateTime := U32(now), pid := U32(pid), inUse := true));
      } else {
        var j := FreeSlot(t).value;
        WriteFreeEntry(t, j, r.table[j]);
        assert r.table == t[j := r.table[j]];
      }
    }
  }

  /** `remove_process`: release the entry in use under the name and
      return 0, or return -1 and change nothing when there is none. The
      entry's other fields stay as they were. */
  function Remove(t: Table, name: string): (r: Outcome)
    ensures r.status == 0 || r.status == -1
    ensures r.status == -1 <==> name !in Names(t)
    ensures r.status == -1 ==> r.table == t
    ensures |r.table| == |t|
    ensures r.status == 0 ==>
              var i := Match(t, name).value;
              && !r.table[i].inUse
              && r.table[i] == t[i].(inUse := false)
              && forall k :: 0 <= k < |t| && k != i ==> r.table[k] == t[k]
  {
    var m := Match(t, name);
    if m.None? then Outcome(t, -1)
    else Outcome(t[m.value := t[m.value].(inUse := false)], 0)
  }

  /** With unique names, removal drops exactly the removed name and keeps
      the others unique. */
  lemma RemoveForgets(t: Table, name: string)
    requires UniqueNames(t)
    ensures var r := Remove(t, name);
            && Names(r.table) == Names(t) - {name}
            && UniqueNames(r.table)
  {
    var m := Match(t, name);
    if m.Some? {
      ReleaseEntry(t, m.value);
    }
  }

  /** Registering a new name and removing it again leaves the same names
      in use as before, and the name is no longer found. */
  lemma RegisterThenRemove(t: Table, name: string, path: string, argv: seq<string>, now: int, pid: int)
    requires UniqueNames(t) && name !in Names(t)
    requires Register(t, Some(name), Some(path), argv, now, pid).status == 0
    ensures var r := Remove(Register(t, Some(name), Some(path), argv, now, pid).table, name);
            && r.status == 0
            && Names(r.table) == Names(t)
            && Match(r.table, name).None?
  {
    var g := Register(t, Some(name), Some(path), argv, now, pid);
    RegisterKeepsNamesUnique(t, Some(name), Some(path), argv, now, pid);
    RemoveForgets(g.table, name);
  }

  /** The check `set_expire_interval` and `handle_timeout` make of a name
      (NULL is `None`). */
  predicate LookupRequest(name: Option<string>)
  {
    name.Some? && |name.value| + 1 <= PathLimit
  }

  /** The expiry interval of the entry in use under a name. */
  function ExpireOf(t: Table, name: string): (r: Option<int>)
    ensures r.Some? <==> name in Names(t)
  {
    var m := Match(t, name);
    if m.None? then None else Some(t[m.value].expireInterval)
  }

  /** `set_expire_interval` with an `unsigned int` interval: -1 and no
      change for a NULL, over-long or unknown name, otherwise 0 with only
      that entry's interval changed. */
  function SetExpireInterval(t: Table, name: Option<string>, interval: int): (r: Outcome)
    requires 0 <= interval < UIntRange
    ensures r.status == 0 || r.status == -1
    ensures r.status == 0 <==> LookupRequest(name) && name.value in Names(t)
    ensures r.status == -1 ==> r.table == t
    ensures |r.table| == |t|
    ensures Names(r.table) == Names(t)
    ensures r.status == 0 ==>
              var i := Match(t, name.value).value;
              && r.table[i] == t[i].(expireInterval := interval)
              && forall k :: 0 <= k < |t| && k != i ==> r.table[k] == t[k]
  {
    if !LookupRequest(name) then Outcome(t, -1)
    else
      var m := Match(t, name.value);
      if m.None? then Outcome(t, -1)
      else
        var i := m.value;
        var u := t[i := t[i].(expireInterval := interval)];
        WriteSameName(t, i, u[i]);
        Outcome(u, 0)
  }

  /** After a successful set, the name's interval reads back as the one
      set, and every other name keeps its own. */
  lemma SetThenRead(t: Table, name: string, interval: int, other: string)
    requires 0 <= interval < UIntRange
    requires SetExpireInterval(t, Some(name), interval).status == 0
    ensures var u := SetExpireInterval(t, Some(name), interval).table;
            && ExpireOf(u, name) == Some(interval)
            && (other != name ==> ExpireOf(u, other) == ExpireOf(t, other))
  {
    var u := SetExpireInterval(t, Some(name), interval).table;
    var i := Match(t, name).value;
    SameMatches(t, u, i, other);
  }

  /** Two tables that differ at most in the interval of one entry find
      every name at the same entry. */
  lemma SameMatches(t: Table, u: Table, i: nat, name: string)
    requires |u| == |t| && i < |t|
    requires forall k :: 0 <= k < |t| && k != i ==> u[k] == t[k]
    requires u[i].name == t[i].name && u[i].inUse == t[i].inUse
    ensures Match(u, name) == Match(t, name)
    ensures Match(t, name).Some? && Match(t, name).value != i ==> ExpireOf(u, name) == ExpireOf(t, name)
  {
    assert forall k :: 0 <= k < |t| ==> (Named(u[k], name) <==> Named(t[k], name));
  }

  /** `handle_timeout`, the heartbeat: the entry in use under the name
      records `now` as its last update; a NULL, over-long or unknown name
      changes nothing. */
  function HandleTimeout(t: Table, name: Option<string>, now: int): (r: Table)
    ensures |r| == |t|
    ensures Names(r) == Names(t)
    ensures !LookupRequest(name) || name.value !in Names(t) ==> r == t
    ensures LookupRequest(name) && name.value in Names(t) ==>
              var i := Match(t, name.value).value;
              && r[i] == t[i].(updateTime := U32(now))
              && forall k :: 0 <= k < |t| && k != i ==> r[k] == t[k]
  {
    if !LookupRequest(name) then t
    else
      var m := Match(t, name.value);
      if m.None? then t
      else
        var i := m.value;
        var u := t[i := t[i].(updateTime := U32(now))];
        WriteSameName(t, i, u[i]);
        u
  }

  /** A heartbeat keeps the entry's interval, so a name's interval is the
      same before and after it. */
  lemma HeartbeatKeepsInterval(t: Table, name: Option<string>, now: int, other: string)
    ensures ExpireOf(HandleTimeout(t, name, now), other) == ExpireOf(t, other)
  {
    var r := HandleTimeout(t, name, now);
    if LookupRequest(name) && name.value in Names(t) {
      var i := Match(t, name.value).value;
      SameMatches(t, r, i, other);
    }
  }

  /** The table a new monitor starts with: the shared block zeroed, then
      every interval set to the default. */
  function Fresh(): (t: Table)
    ensures |t| == Entries
    ensures forall i :: 0 <= i < |t| ==> !t[i].inUse && t[i].expireInterval == DefaultExpire
    ensures Names(t) == {} && UniqueNames(t)
  {
    seq(Entries, _ => Zeroed.(expireInterval := DefaultExpire))
  }

  /** A monitor: the offset of its shared block and the table held there. */
  datatype Monitor = Monitor(data: int, table: Table)

  /** The name check of `ipt_process_monitor_create` and `_attach` (NULL
      is `None`). */
  predicate MonitorName(name: Option<string>)
  {
    name.Some? && |name.value| + 1 <= PathLimit
  }

  /** `ipt_process_monitor_create`, with the check on registration the
      code evidently means: a NULL or over-long name, a name already
      registered or a failed allocation give NULL with nothing changed; a
      failed registration gives the block back and NULL. Otherwise the
      fresh table is registered under the name. */
  function Create(a: Allocator, name: Option<string>): (r: (Allocator, Option<Monitor>))
    requires Valid(a)
    ensures Valid(r.0)
    ensures r.1.None? ==> r.0 == a
    ensures !MonitorName(name) || Find(a, name.value).Some? ==> r.1.None?
    ensures r.1.Some? ==> Find(r.0, name.value) == Some(r.1.value.data) && r.1.value.table == Fresh()
  {
    if !MonitorName(name) || Find(a, name.value).Some? then (a, None)
    else
      var m := Malloc(a, SharedSize);
      if m.ptr.None? then (a, None)
      else
        MallocValid(a, SharedSize);
        var g := Registry.Register(m.state, Some(name.value), Some(m.ptr.value));
        RegisterFailureChangesNothing(m.state, Some(name.value), Some(m.ptr.value));
        RegisterValid(m.state, Some(name.value), Some(m.ptr.value));
        if g.status != 0 then
          MallocThenFree(a, SharedSize);
          (Free(g.state, m.ptr.value), None)
        else
          RegisterThenFind(m.state, name.value, m.ptr.value, name.value);
          (g.state, Some(Monitor(m.ptr.value, Fresh())))
  }

  /** `ipt_process_monitor_create` as written: registration reports
      failure with 1 but the code only gives up on a negative result, so
      the monitor is handed out although nobody can attach to it. */
  function CreateAsWritten(a: Allocator, name: Option<string>): (r: (Allocator, Option<Monitor>))
    requires Valid(a)
    ensures Valid(r.0)
    ensures r.1.None? ==> r.0 == a
    ensures r.1.Some? ==> r.1.value.table == Fresh()
  {
    if !MonitorName(name) || Find(a, name.value).Some? then (a, None)
    else
      var m := Malloc(a, SharedSize);
      if m.ptr.None? then (a, None)
      else
        MallocValid(a, SharedSize);
        var g := Registry.Register(m.state, Some(name.value), Some(m.ptr.value));
        RegisterValid(m.state, Some(name.value), Some(m.ptr.value));
        (g.state, Some(Monitor(m.ptr.value, Fresh())))
  }

  /** `ipt_process_monitor_attach`: a NULL or over-long name, or one
      nobody registered, gives NULL; otherwise the registered block. */
  function Attach(a: Allocator, name: Option<string>): (r: Option<int>)
    ensures r.Some? <==> MonitorName(name) && Find(a, name.value).Some?
    ensures r.Some? ==> r == Find(a, name.value)
  {
    if !MonitorName(name) then None else Find(a, name.value)
  }

  /** A create followed by an attach under the same name finds the block
      the create registered. */
  lemma CreateThenAttach(a: Allocator, name: Option<string>)
    requires Valid(a) && Create(a, name).1.Some?
    ensures Attach(Create(a, name).0, name) == Some(Create(a, name).1.value.data)
  {
  }

  /** When the only free span fits the shared block exactly, nothing is
      left for the registry entry and registration fails without a
      change. */
  lemma BlockFillsSegment(a: Allocator, name: string)
    requires Valid(a) && |a.free| == 1 && a.free[0].size == H + SharedSize
    ensures Malloc(a, SharedSize).ptr.Some?
    ensures Registry.Register(Malloc(a, SharedSize).state, Some(name), Some(Malloc(a, SharedSize).ptr.value)).state
            == Malloc(a, SharedSize).state
  {
    assert RoundUp(SharedSize) == SharedSize;
    MallocFirstFit(a, SharedSize, 0);
    assert a.free[..0] + a.free[1..] == [];
    assert Malloc(Malloc(a, SharedSize).state, RegObjSize).ptr.None?;
  }

  /** Once the name is free and the block allocated, the as-written
      create hands out the monitor whatever registration reports, and the
      corrected one gives the block back when registration fails. */
  lemma CreateAfterBlock(a: Allocator, name: string)
    requires Valid(a) && |name| + 1 <= PathLimit && Find(a, name).None? && Malloc(a, SharedSize).ptr.Some?
    ensures var m := Malloc(a, SharedSize);
            var g := Registry.Register(m.state, Some(name), Some(m.ptr.value));
            && CreateAsWritten(a, Some(name)) == (g.state, Some(Monitor(m.ptr.value, Fresh())))
            && (g.status != 0 ==> Create(a, Some(name)) == (Free(g.state, m.ptr.value), None))
  {
  }

  /** In such a state the as-written create hands out a monitor nobody
      can attach to and keeps its block, while the corrected create
      refuses and changes nothing. */
  lemma UnregisteredMonitorCreated(a: Allocator, name: string)
    requires Valid(a) && |a.free| == 1 && a.free[0].size == H + SharedSize
    requires |name| + 1 <= PathLimit && Find(a, name).None?
    ensures var c := CreateAsWritten(a, Some(name));
            && c.1.Some?
            && Attach(c.0, Some(name)).None?
            && Owned(c.0, c.1.value.data)
    ensures Create(a, Some(name)) == (a, None)
  {
    var m := Malloc(a, SharedSize);
    BlockFillsSegment(a, name);
    CreateAfterBlock(a, name);
    assert CreateAsWritten(a, Some(name)).0 == m.state;
    assert Find(m.state, name).None? by {
      assert m.state.registry == a.registry;
    }
    MallocOwns(a, SharedSize);
    assert Registry.Register(m.state, Some(name), Some(m.ptr.value)).status != 0 by {
      RegisterFailureChangesNothing(m.state, Some(name), Some(m.ptr.value));
    }
    MallocThenFree(a, SharedSize);
  }
}

/**
 * The main process's PTY registry: a map from pane id to the managed
 * process spawned for it.  Processes are named by a spawn counter
 * (`instance`), which stands for the identity of the node-pty object and of
 * the `managed` record its exit handler closes over.  Launching, killing and
 * the exit notification of the operating system's process are explicit:
 * the launch outcome is a parameter of `Spawn`, and an exit is the event
 * `Exit(instance)`.
 */
module Pty {
  import opened Wrappers
  import opened Strings
  import Tabs

  /** A registry entry: which process, and whether the registry believes it alive. */
  datatype Managed = Managed(instance: nat, alive: bool)

  /** What the model keeps of a launched process. */
  datatype Proc = Proc(
    id: string,
    shell: string,
    cols: int,
    rows: int,
    env: map<string, string>,
    input: seq<string>,        // everything written to its stdin, in order
    killed: bool,
    exited: bool)

  datatype Manager = Manager(registry: map<string, Managed>, procs: map<nat, Proc>, next: nat)

  function Empty(): Manager
  {
    Manager(map[], map[], 0)
  }

  datatype SpawnRequest = SpawnRequest(
    paneId: string,
    shell: string,             // "" when the request names no shell
    env: map<string, string>,  // empty when the request carries none
    cols: int,
    rows: int)

  /** What node-pty's spawn does: returns a pid or throws with a message (possibly empty). */
  datatype Launch = Launched(pid: nat) | LaunchFailed(message: string)

  datatype SpawnReply = Pid(pid: nat) | SpawnError(error: string)

  const DefaultCols: int := 120
  const DefaultRows: int := 30
  const SpawnFailedMessage: string := "Failed to spawn PTY"

  /** `v || d` on a number: zero falls back to the default. */
  function OrDefault(v: int, d: int): (r: int)
    ensures v != 0 ==> r == v
    ensures v == 0 ==> r == d
  {
    if v == 0 then d else v
  }

  // ---------------------------------------------------------------------------
  // Environment cleaning
  // ---------------------------------------------------------------------------

  /** The two names blocked outright: `CLAUDECODE` and `CLAUDE_CODE_ENTRYPOINT`. */
  predicate IsBlocked(key: string)
  {
    key == "CLAUDECODE" || key == "CLAUDE_CODE_ENTRYPOINT"
  }

  /** A variable that marks a Claude Code session: its upper-cased name starts with CLAUDE, or it is blocked by name. */
  predicate IsSessionMarker(key: string)
    ensures IsSessionMarker(key) <==> StartsWith(ToUpper(key), "CLAUDE")
  {
    assert IsBlocked(key) ==> StartsWith(ToUpper(key), "CLAUDE") by {
      if IsBlocked(key) {
        BlockedIsPrefixed(key);
      }
    }
    StartsWith(ToUpper(key), "CLAUDE") || IsBlocked(key)
  }

  /** Both blocked names already match the prefix rule, so the block list adds nothing. */
  lemma BlockedIsPrefixed(key: string)
    requires IsBlocked(key)
    ensures StartsWith(ToUpper(key), "CLAUDE")
  {
    var u := ToUpper(key);
    assert key[..6] == "CLAUDE";
    assert forall i | 0 <= i < 6 :: u[i] == UpperChar(key[i]) == key[i];
    assert u[..6] == key[..6];
  }

  /** The inherited environment without session markers. */
  function CleanEnv(inherited: map<string, string>): (r: map<string, string>)
    ensures forall k :: k in r <==> k in inherited && !IsSessionMarker(k)
    ensures forall k | k in r :: r[k] == inherited[k]
  {
    map k | k in inherited && !IsSessionMarker(k) :: inherited[k]
  }

  /** The spawned process's environment: cleaned inherited variables, the request's overrides, then the two forced color settings. */
  function BuildEnv(inherited: map<string, string>, overrides: map<string, string>): (r: map<string, string>)
    ensures "COLORTERM" in r && r["COLORTERM"] == "truecolor"
    ensures "TERM_PROGRAM" in r && r["TERM_PROGRAM"] == "kiteterm"
    ensures forall k | k != "COLORTERM" && k != "TERM_PROGRAM" ::
      k in r <==> k in overrides || k in CleanEnv(inherited)
    ensures forall k | k in overrides && k != "COLORTERM" && k != "TERM_PROGRAM" :: r[k] == overrides[k]
    ensures forall k | k in r && k !in overrides && k != "COLORTERM" && k != "TERM_PROGRAM" ::
      k in inherited && r[k] == inherited[k]
  {
    var clean := CleanEnv(inherited);
    (clean + overrides)["COLORTERM" := "truecolor"]["TERM_PROGRAM" := "kiteterm"]
  }

  /** The two forced variables are not session markers. */
  lemma ForcedAreNotMarkers(k: string)
    ensures IsSessionMarker(k) ==> k != "COLORTERM" && k != "TERM_PROGRAM"
  {
    var u := ToUpper(k);
    if k == "COLORTERM" {
      assert u[1] == UpperChar(k[1]) == 'O';
    } else if k == "TERM_PROGRAM" {
      assert u[0] == UpperChar(k[0]) == 'T';
    }
  }

  /** A session marker reaches the child only when the workspace's own env sets it. */
  lemma MarkersOnlyFromOverrides(inherited: map<string, string>, overrides: map<string, string>, k: string)
    requires k in BuildEnv(inherited, overrides) && IsSessionMarker(k)
    ensures k in overrides
  {
    ForcedAreNotMarkers(k);
  }

  // ---------------------------------------------------------------------------
  // Operations
  // ---------------------------------------------------------------------------

  predicate IsAlive(m: Manager, id: string)
  {
    id in m.registry && m.registry[id].alive
  }

  /** `killPty`: only a registered, alive entry is acted on; its process is killed and the entry removed. */
  function Kill(m: Manager, id: string): (r: Manager)
    ensures IsAlive(m, id) ==> id !in r.registry
    ensures IsAlive(m, id) ==> r.registry == m.registry - {id}
    ensures !IsAlive(m, id) ==> r == m
    ensures r.procs.Keys == m.procs.Keys && r.next == m.next
    ensures forall i | i in m.procs ::
      r.procs[i] == m.procs[i].(killed := m.procs[i].killed || (IsAlive(m, id) && m.registry[id].instance == i))
  {
    if !IsAlive(m, id) then m
    else
      var inst := m.registry[id].instance;
      var procs := if inst in m.procs then m.procs[inst := m.procs[inst].(killed := true)] else m.procs;
      Manager(m.registry - {id}, procs, m.next)
  }

  datatype SpawnOutcome = SpawnOutcome(manager: Manager, reply: SpawnReply)

  /**
   * `spawnPty`: kill whatever is registered for the pane, launch with the
   * cleaned environment and the defaulted shell and size, and register the
   * new process under the pane id.  A failed launch registers nothing.
   */
  function Spawn(m: Manager, req: SpawnRequest, inherited: map<string, string>, defaultShell: string, launch: Launch): (r: SpawnOutcome)
    ensures !IsAlive(r.manager, req.paneId) <==> launch.LaunchFailed?
    ensures launch.LaunchFailed? ==>
      && r.reply == SpawnError(if launch.message == "" then SpawnFailedMessage else launch.message)
      && r.manager == Kill(m, req.paneId)
    ensures launch.Launched? ==>
      && r.reply == Pid(launch.pid)
      && r.manager.registry == Kill(m, req.paneId).registry[req.paneId := Managed(m.next, true)]
      && r.manager.next == m.next + 1
      && m.next in r.manager.procs
      && r.manager.procs == Kill(m, req.paneId).procs[m.next := r.manager.procs[m.next]]
    ensures launch.Launched? && m.next in r.manager.procs ==>
      var p := r.manager.procs[m.next];
      && p.id == req.paneId
      && (req.shell == "" ==> p.shell == defaultShell) && (req.shell != "" ==> p.shell == req.shell)
      && (req.cols == 0 ==> p.cols == DefaultCols) && (req.cols != 0 ==> p.cols == req.cols)
      && (req.rows == 0 ==> p.rows == DefaultRows) && (req.rows != 0 ==> p.rows == req.rows)
      && p.env == BuildEnv(inherited, req.env)
      && p.input == [] && !p.killed && !p.exited
  {
    var k := Kill(m, req.paneId);
    match launch
    case LaunchFailed(msg) =>
      SpawnOutcome(k, SpawnError(if msg == "" then SpawnFailedMessage else msg))
    case Launched(pid) =>
      var shell := if req.shell == "" then defaultShell else req.shell;
      var proc := Proc(req.paneId, shell, OrDefault(req.cols, DefaultCols), OrDefault(req.rows, DefaultRows),
                       BuildEnv(inherited, req.env), [], false, false);
      SpawnOutcome(Manager(k.registry[req.paneId := Managed(m.next, true)], k.procs[m.next := proc], m.next + 1), Pid(pid))
  }

  /** `writeToPty`: the data reaches the registered process only when it is alive; otherwise nothing happens. */
  function Write(m: Manager, id: string, data: string): (r: Manager)
    ensures !IsAlive(m, id) || m.registry[id].instance !in m.procs ==> r == m
    ensures r.registry == m.registry && r.next == m.next && r.procs.Keys == m.procs.Keys
    ensures IsAlive(m, id) && m.registry[id].instance in m.procs ==>
      var i := m.registry[id].instance;
      r.procs == m.procs[i := m.procs[i].(input := m.procs[i].input + [data])]
  {
    if !IsAlive(m, id) || m.registry[id].instance !in m.procs then m
    else
      var i := m.registry[id].instance;
      m.(procs := m.procs[i := m.procs[i].(input := m.procs[i].input + [data])])
  }

  /** `resizePty`: an alive process takes the new size unless node-pty throws, which is swallowed. */
  function Resize(m: Manager, id: string, cols: int, rows: int, fails: bool): (r: Manager)
    ensures fails || !IsAlive(m, id) || m.registry[id].instance !in m.procs ==> r == m
    ensures r.registry == m.registry && r.next == m.next && r.procs.Keys == m.procs.Keys
    ensures !fails && IsAlive(m, id) && m.registry[id].instance in m.procs ==>
      var i := m.registry[id].instance;
      r.procs == m.procs[i := m.procs[i].(cols := cols, rows := rows)]
  {
    if fails || !IsAlive(m, id) || m.registry[id].instance !in m.procs then m
    else
      var i := m.registry[id].instance;
      m.(procs := m.procs[i := m.procs[i].(cols := cols, rows := rows)])
  }

  /** `writeCommandToPty`, once its delay has elapsed: the command followed by a carriage return, written to whatever is registered then. */
  function WriteCommand(m: Manager, id: string, command: string): (r: Manager)
    ensures IsAlive(m, id) && m.registry[id].instance in m.procs ==>
      var i := m.registry[id].instance;
      && i in r.procs
      && r.procs[i].input == m.procs[i].input + [command + "\r"]
      && r.procs[i].input[|r.procs[i].input| - 1][|command|] == '\r'
    ensures !IsAlive(m, id) ==> r == m
  {
    Write(m, id, command + "\r")
  }

  /**
   * The exit handler as written: the process is marked exited, and the
   * registry entry under its pane id is deleted, whichever process that
   * entry now names.
   */
  function Exit(m: Manager, instance: nat): (r: Manager)
    ensures instance !in m.procs ==> r == m
    ensures instance in m.procs ==>
      && r.procs == m.procs[instance := m.procs[instance].(exited := true)]
      && r.registry == m.registry - {m.procs[instance].id}
  {
    if instance !in m.procs then m
    else
      var p := m.procs[instance];
      Manager(m.registry - {p.id}, m.procs[instance := p.(exited := true)], m.next)
  }

  /** The exit handler corrected: the entry is deleted only while it still names the exiting process. */
  function ExitFixed(m: Manager, instance: nat): (r: Manager)
    ensures instance !in m.procs ==> r == m
    ensures instance in m.procs ==>
      var id := m.procs[instance].id;
      && r.procs == m.procs[instance := m.procs[instance].(exited := true)]
      && (id in m.registry && m.registry[id].instance == instance ==> r.registry == m.registry - {id})
      && (id !in m.registry || m.registry[id].instance != instance ==> r.registry == m.registry)
  {
    if instance !in m.procs then m
    else
      var p := m.procs[instance];
      var registry := if p.id in m.registry && m.registry[p.id].instance == instance then m.registry - {p.id} else m.registry;
      Manager(registry, m.procs[instance := p.(exited := true)], m.next)
  }

  /** A pane id belongs to a workspace when it is the workspace id or starts with it followed by a colon. */
  predicate BelongsTo(id: string, prefix: string)
    ensures BelongsTo(id, prefix) <==> StartsWith(id, prefix) && (|id| == |prefix| || id[|prefix|] == ':')
  {
    id == prefix || StartsWith(id, prefix + ":")
  }

  /** The processes named by the alive entries among `ids` that `select` picks. */
  ghost function Victims(m: Manager, select: string -> bool, ids: set<string>): set<nat>
  {
    set id | id in ids && id in m.registry && select(id) && m.registry[id].alive :: m.registry[id].instance
  }

  lemma VictimsAdd(m: Manager, select: string -> bool, ids: set<string>, id: string)
    ensures Victims(m, select, ids + {id}) ==
      Victims(m, select, ids) + (if id in m.registry && select(id) && m.registry[id].alive then {m.registry[id].instance} else {})
  {
  }

  /** The state of the kill loop once the keys `done` have been visited. */
  ghost predicate KilledSoFar(m: Manager, r: Manager, select: string -> bool, done: set<string>)
  {
    && (forall id :: id in r.registry <==> id in m.registry && !(id in done && select(id) && m.registry[id].alive))
    && (forall id | id in r.registry :: r.registry[id] == m.registry[id])
    && r.procs.Keys == m.procs.Keys && r.next == m.next
    && (forall i | i in m.procs ::
          r.procs[i] == m.procs[i].(killed := m.procs[i].killed || i in Victims(m, select, done)))
  }

  /** Before any key is visited, nothing is killed. */
  lemma KilledNone(m: Manager, select: string -> bool)
    ensures KilledSoFar(m, m, select, {})
  {
    assert Victims(m, select, {}) == {};
  }

  /** Visiting one more registered key keeps the loop's state in step. */
  lemma KillStep(m: Manager, r: Manager, select: string -> bool, done: set<string>, id: string)
    requires id in m.registry && id !in done && KilledSoFar(m, r, select, done)
    ensures KilledSoFar(m, if select(id) then Kill(r, id) else r, select, done + {id})
  {
    VictimsAdd(m, select, done, id);
    var r' := if select(id) then Kill(r, id) else r;
    assert select(id) ==> (IsAlive(r, id) <==> m.registry[id].alive);
    forall i | i in m.procs
      ensures r'.procs[i] == m.procs[i].(killed := m.procs[i].killed || i in Victims(m, select, done + {id}))
    {
    }
  }

  /**
   * `killPty` on every registered id that `select` picks, in any order: the
   * loops of `killAllPtys` and `killPtysForWorkspace`.  Each kill deletes
   * only the key being visited, so every key present at the start is
   * visited.
   */
  method KillSelected(m: Manager, select: string -> bool) returns (r: Manager)
    ensures forall id :: id in r.registry <==> id in m.registry && !(select(id) && m.registry[id].alive)
    ensures forall id | id in r.registry :: r.registry[id] == m.registry[id]
    ensures r.procs.Keys == m.procs.Keys && r.next == m.next
    ensures forall i | i in m.procs ::
      r.procs[i] == m.procs[i].(killed := m.procs[i].killed || i in Victims(m, select, m.registry.Keys))
  {
    r := m;
    var todo := m.registry.Keys;
    ghost var done: set<string> := {};
    KilledNone(m, select);
    while todo != {}
      invariant todo !! done && todo + done == m.registry.Keys
      invariant KilledSoFar(m, r, select, done)
      decreases |todo|
    {
      var id :| id in todo;
      KillStep(m, r, select, done, id);
      if select(id) {
        r := Kill(r, id);
      }
      todo := todo - {id};
      done := done + {id};
    }
    assert done == m.registry.Keys;
  }

  /** `killPtysForWorkspace`: kill every pane of one workspace and nothing else. */
  method KillForWorkspace(m: Manager, prefix: string) returns (r: Manager)
    ensures forall id :: id in r.registry <==> id in m.registry && !(BelongsTo(id, prefix) && m.registry[id].alive)
    ensures forall id | id in r.registry :: r.registry[id] == m.registry[id]
    ensures r.procs.Keys == m.procs.Keys && r.next == m.next
  {
    r := KillSelected(m, id => BelongsTo(id, prefix));
  }

  /** `killAllPtys`: nothing alive stays registered. */
  method KillAll(m: Manager) returns (r: Manager)
    ensures forall id :: id in r.registry <==> id in m.registry && !m.registry[id].alive
    ensures forall id | id in r.registry :: r.registry[id] == m.registry[id]
    ensures r.procs.Keys == m.procs.Keys && r.next == m.next
    ensures forall i | i in m.procs && !m.procs[i].killed :: r.procs[i].killed <==> i in Victims(m, _ => true, m.registry.Keys)
  {
    r := KillSelected(m, _ => true);
  }

  // ---------------------------------------------------------------------------
  // The registry invariant
  // ---------------------------------------------------------------------------

  /**
   * The registry and the processes agree: every entry names a live, unkilled
   * process of the same pane id, and every process numbered so far is below
   * the counter.
   */
  ghost predicate WellFormed(m: Manager)
  {
    && (forall i | i in m.procs :: i < m.next)
    && (forall id | id in m.registry ::
          var e := m.registry[id];
          e.alive && e.instance in m.procs && m.procs[e.instance].id == id
          && !m.procs[e.instance].killed && !m.procs[e.instance].exited)
  }

  /** No orphan: every process that is neither killed nor exited is the one registered under its pane id. */
  ghost predicate NoOrphans(m: Manager)
  {
    forall i | i in m.procs && !m.procs[i].killed && !m.procs[i].exited ::
      m.procs[i].id in m.registry && m.registry[m.procs[i].id].instance == i
  }

  ghost predicate Consistent(m: Manager)
  {
    WellFormed(m) && NoOrphans(m)
  }

  lemma EmptyConsistent()
    ensures Consistent(Empty())
  {
  }

  lemma KillConsistent(m: Manager, id: string)
    requires Consistent(m)
    ensures Consistent(Kill(m, id))
  {
  }

  lemma SpawnConsistent(m: Manager, req: SpawnRequest, inherited: map<string, string>, defaultShell: string, launch: Launch)
    requires Consistent(m)
    ensures Consistent(Spawn(m, req, inherited, defaultShell, launch).manager)
  {
  }

  lemma WriteResizeConsistent(m: Manager, id: string, data: string, cols: int, rows: int, fails: bool)
    requires Consistent(m)
    ensures Consistent(Write(m, id, data))
    ensures Consistent(Resize(m, id, cols, rows, fails))
  {
  }

  /** The corrected exit handler keeps the registry consistent. */
  lemma ExitFixedConsistent(m: Manager, instance: nat)
    requires Consistent(m)
    ensures Consistent(ExitFixed(m, instance))
  {
  }

  /** The exit handler as written keeps the entries well formed, but not the absence of orphans. */
  lemma ExitWellFormed(m: Manager, instance: nat)
    requires WellFormed(m)
    ensures WellFormed(Exit(m, instance))
  {
  }

  /** On a consistent registry the two handlers differ only when the exiting process was already replaced. */
  lemma ExitAgreesWhenCurrent(m: Manager, instance: nat)
    requires Consistent(m) && instance in m.procs
    requires var id := m.procs[instance].id; id in m.registry && m.registry[id].instance == instance
    ensures Exit(m, instance) == ExitFixed(m, instance)
  {
  }

  /** The kill-first respawn followed by the late exit of the killed process. */
  function RespawnThenLateExit(req: SpawnRequest, inherited: map<string, string>, defaultShell: string, exitFixed: bool): Manager
  {
    var m1 := Spawn(Empty(), req, inherited, defaultShell, Launched(100)).manager;
    var m2 := Spawn(m1, req, inherited, defaultShell, Launched(101)).manager;
    if exitFixed then ExitFixed(m2, 0) else Exit(m2, 0)
  }

  /**
   * As written, respawning a pane and then receiving the exit of the process
   * that the respawn killed unregisters the new process: it is left running
   * with no entry, so writes to the pane are dropped and no kill reaches it.
   */
  lemma LateExitOrphansRespawn(req: SpawnRequest, inherited: map<string, string>, defaultShell: string)
    ensures var m := RespawnThenLateExit(req, inherited, defaultShell, false);
      && 1 in m.procs && !m.procs[1].killed && !m.procs[1].exited
      && !IsAlive(m, req.paneId)
      && !NoOrphans(m)
      && Write(m, req.paneId, "x") == m
      && Kill(m, req.paneId) == m
  {
    var m := RespawnThenLateExit(req, inherited, defaultShell, false);
    assert 1 in m.procs && !m.procs[1].killed && !m.procs[1].exited;
  }

  /** Corrected, the late exit leaves the new process registered and reachable. */
  lemma LateExitKeepsRespawn(req: SpawnRequest, inherited: map<string, string>, defaultShell: string)
    ensures var m := RespawnThenLateExit(req, inherited, defaultShell, true);
      && IsAlive(m, req.paneId) && m.registry[req.paneId].instance == 1
      && Consistent(m)
  {
    var m1 := Spawn(Empty(), req, inherited, defaultShell, Launched(100)).manager;
    SpawnConsistent(Empty(), req, inherited, defaultShell, Launched(100));
    var m2 := Spawn(m1, req, inherited, defaultShell, Launched(101)).manager;
    SpawnConsistent(m1, req, inherited, defaultShell, Launched(101));
    ExitFixedConsistent(m2, 0);
  }

  /**
   * For workspace ids without a colon (they are UUIDs), the prefix rule
   * picks exactly the panes of that workspace: another workspace whose id
   * merely starts with this one is not touched.
   */
  lemma BelongsToExactly(ws: string, other: string, k: nat)
    requires ':' !in ws && ':' !in other
    ensures BelongsTo(Tabs.PaneId(other, k), ws) <==> other == ws
  {
    var id := Tabs.PaneId(other, k);
    assert id[..|other|] == other && id[|other|] == ':';
    assert ':' in id;
    if other == ws {
      assert id[..|ws| + 1] == ws + ":";
    }
    if StartsWith(id, ws + ":") {
      ColonPrefixDetermines(id, other, ws);
    }
  }

  /** Two colon-free prefixes of `id` that both end at a colon are the same: its first colon. */
  lemma ColonPrefixDetermines(id: string, a: string, b: string)
    requires ':' !in a && ':' !in b
    requires |a| < |id| && id[..|a|] == a && id[|a|] == ':'
    requires StartsWith(id, b + ":")
    ensures a == b
  {
    var n := |b|;
    assert id[..n + 1] == b + ":";
    assert id[n] == ':' by { assert id[..n + 1][n] == ':'; }
    assert forall j | 0 <= j < |a| :: id[j] != ':' by {
      forall j | 0 <= j < |a|
        ensures id[j] != ':'
      {
        assert id[j] == id[..|a|][j] == a[j];
      }
    }
    assert forall j | 0 <= j < n :: id[j] != ':' by {
      forall j | 0 <= j < n
        ensures id[j] != ':'
      {
        assert id[j] == id[..n + 1][j] == b[j];
      }
    }
    assert n == |a|;
    assert b == id[..n];
  }
}

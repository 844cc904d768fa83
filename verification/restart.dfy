/**
 * The renderer's crash/auto-restart policy for a pane, as a pure transition
 * function.  The timers of the source (the 2 s respawn backoff and the 30 s
 * stability timer) and the awaited spawn are explicit events: an armed timer
 * is a flag in the state and its firing is an event.  `restartCount` and the
 * stability timer belong to the tab; the pane's status is the status of the
 * pane whose process exited.
 */
module Restart {
  import opened Wrappers
  import opened PaneTree

  /** The workspace settings the policy reads: `autoRestart` and `maxRestarts`. */
  datatype Policy = Policy(autoRestart: bool, maxRestarts: Option<int>)

  /** `maxRestarts || 3`: a missing or zero setting means three. */
  function EffectiveMax(p: Policy): (r: int)
    ensures p.maxRestarts.None? ==> r == 3
    ensures p.maxRestarts == Some(0) ==> r == 3
    ensures p.maxRestarts.Some? && p.maxRestarts.value != 0 ==> r == p.maxRestarts.value
    ensures r != 0
  {
    if p.maxRestarts.None? || p.maxRestarts.value == 0 then 3 else p.maxRestarts.value
  }

  /** Whether the spawn in flight came from the backoff timer or from the user. */
  datatype SpawnKind = AutoRespawn | ManualRespawn

  datatype Machine = Machine(
    status: Status,
    restartCount: nat,
    stabilityPending: bool,     // the 30 s stability timer is armed
    backoffPending: bool,       // the 2 s respawn timer is armed
    spawning: Option<SpawnKind>,
    awaitingEnter: bool,        // an Enter-to-restart key handler is registered
    tabOpen: bool)

  datatype Event =
    | Exit                      // the pane's process exited
    | BackoffFired              // the 2 s respawn timer fired
    | SpawnDone(ok: bool)       // `spawnPaneTerminal` came back: pid or error
    | StabilityFired            // the 30 s stability timer fired
    | EnterPressed              // Enter on the dead pane
    | ManualRestart             // `restartTerminal`
    | TabClosed                 // `closeTab`

  /** The tab as it stands once its pane is running with a full budget. */
  function Running0(): Machine
  {
    Machine(Running, 0, false, false, None, false, true)
  }

  /** The policy's test on exit: auto-restart is on and the budget is not spent. */
  predicate MayAutoRestart(p: Policy, count: nat)
  {
    p.autoRestart && count < EffectiveMax(p)
  }

  /** One event, as the source handles it. */
  function Step(m: Machine, p: Policy, e: Event): (r: Machine)
    ensures r.restartCount > m.restartCount ==>
      SchedulesRestart(m, p, e) && r.restartCount == m.restartCount + 1 && r.backoffPending && r.status == Dead
    ensures r.restartCount < m.restartCount ==> r.restartCount == 0
    ensures !m.tabOpen ==> !r.tabOpen && (r.spawning.Some? ==> m.spawning.Some?)
    ensures r.spawning.Some? && m.spawning.None? ==> r.status == Starting
  {
    match e
    case Exit =>
      if !m.tabOpen then m
      else if MayAutoRestart(p, m.restartCount) then
        m.(status := Dead, restartCount := m.restartCount + 1, backoffPending := true)
      else
        m.(status := Dead, awaitingEnter := true)
    case BackoffFired =>
      if !m.backoffPending then m
      else if !m.tabOpen then m.(backoffPending := false)
      else m.(backoffPending := false, status := Starting, spawning := Some(AutoRespawn))
    case SpawnDone(ok) =>
      if m.spawning.None? then m
      else
        m.(status := if ok then Running else Dead,
           spawning := None,
           stabilityPending := if m.spawning.value == AutoRespawn then true else m.stabilityPending)
    case StabilityFired =>
      if m.stabilityPending then m.(restartCount := 0, stabilityPending := false) else m
    case EnterPressed =>
      if !m.awaitingEnter || !m.tabOpen then m
      else
        m.(awaitingEnter := false, restartCount := 0, stabilityPending := false,
           status := Starting, spawning := Some(ManualRespawn))
    case ManualRestart =>
      if !m.tabOpen then m
      else m.(restartCount := 0, stabilityPending := false, status := Starting, spawning := Some(ManualRespawn))
    case TabClosed =>
      m.(tabOpen := false, stabilityPending := false)
  }

  /** The same policy with the stability timer cancelled when the process exits. */
  function StepFixed(m: Machine, p: Policy, e: Event): (r: Machine)
    ensures e == Exit ==> !r.stabilityPending
    ensures e != Exit ==> r == Step(m, p, e)
  {
    if e == Exit then Step(m, p, e).(stabilityPending := false) else Step(m, p, e)
  }

  /** Whether an event, applied to `m`, arms the respawn timer: one automatic restart. */
  predicate SchedulesRestart(m: Machine, p: Policy, e: Event)
  {
    e == Exit && m.tabOpen && MayAutoRestart(p, m.restartCount)
  }

  /**
   * On exit the pane is dead, and the respawn is scheduled exactly when
   * auto-restart is on and the count is below the effective maximum; the
   * count then goes up by one, otherwise it stays and the pane waits for
   * Enter.
   */
  lemma ExitPolicy(m: Machine, p: Policy)
    requires m.tabOpen
    ensures Step(m, p, Exit).status == Dead
    ensures Step(m, p, Exit).backoffPending <==> (p.autoRestart && m.restartCount < EffectiveMax(p)) || m.backoffPending
    ensures p.autoRestart && m.restartCount < EffectiveMax(p) ==> Step(m, p, Exit).restartCount == m.restartCount + 1
    ensures !(p.autoRestart && m.restartCount < EffectiveMax(p)) ==>
      Step(m, p, Exit).restartCount == m.restartCount && Step(m, p, Exit).awaitingEnter
  {
  }

  /** Every event keeps the count at or below any bound that is at least the effective maximum. */
  lemma StepKeepsBudget(m: Machine, p: Policy, e: Event, bound: int)
    requires EffectiveMax(p) <= bound && m.restartCount <= bound
    ensures Step(m, p, e).restartCount <= bound
    ensures StepFixed(m, p, e).restartCount <= bound
  {
  }

  /** A respawn whose backoff fires after the tab was closed is dropped: nothing is spawned. */
  lemma ClosedTabDropsRespawn(m: Machine, p: Policy)
    requires !m.tabOpen
    ensures Step(m, p, BackoffFired).spawning == m.spawning
    ensures Step(m, p, BackoffFired).status == m.status
    ensures !Step(m, p, BackoffFired).backoffPending
  {
  }

  /** The stability timer, armed by a completed automatic respawn, gives back the full budget. */
  lemma StabilityResets(m: Machine, p: Policy, ok: bool)
    requires m.spawning == Some(AutoRespawn)
    ensures Step(Step(m, p, SpawnDone(ok)), p, StabilityFired).restartCount == 0
    ensures !Step(Step(m, p, SpawnDone(ok)), p, StabilityFired).stabilityPending
  {
  }

  /** A manual restart, by Enter on a dead pane or by `restartTerminal`, zeroes the count and disarms the timer. */
  lemma ManualRestartResets(m: Machine, p: Policy)
    requires m.tabOpen
    ensures Step(m, p, ManualRestart).restartCount == 0 && !Step(m, p, ManualRestart).stabilityPending
    ensures m.awaitingEnter ==>
      Step(m, p, EnterPressed).restartCount == 0 && !Step(m, p, EnterPressed).stabilityPending
    ensures Step(m, p, ManualRestart).spawning == Some(ManualRespawn)
  {
  }

  /** Apply a sequence of events. */
  function Run(m: Machine, p: Policy, trace: seq<Event>, fixed: bool): Machine
    decreases |trace|
  {
    if |trace| == 0 then m
    else Run(if fixed then StepFixed(m, p, trace[0]) else Step(m, p, trace[0]), p, trace[1..], fixed)
  }

  /** How many automatic restarts a sequence of events schedules. */
  function AutoRestarts(m: Machine, p: Policy, trace: seq<Event>, fixed: bool): nat
    decreases |trace|
  {
    if |trace| == 0 then 0
    else
      var next := if fixed then StepFixed(m, p, trace[0]) else Step(m, p, trace[0]);
      (if SchedulesRestart(m, p, trace[0]) then 1 else 0) + AutoRestarts(next, p, trace[1..], fixed)
  }

  /**
   * A crash loop: no manual restart, every spawn succeeds, a process exits
   * only while it runs, and no stability timer fires while the pane is
   * running, so no process lived through its 30 s window.
   */
  predicate CrashLoop(m: Machine, p: Policy, trace: seq<Event>, fixed: bool)
    decreases |trace|
  {
    if |trace| == 0 then true
    else
      var e := trace[0];
      var next := if fixed then StepFixed(m, p, e) else Step(m, p, e);
      && e != ManualRestart && e != EnterPressed
      && (e.SpawnDone? ==> e.ok)
      && (e == Exit ==> m.status == Running)
      && (e == StabilityFired ==> m.status != Running)
      && CrashLoop(next, p, trace[1..], fixed)
  }

  /**
   * The state shape the corrected policy keeps in a crash loop: an armed
   * stability timer means a running pane, an armed backoff means no armed
   * stability timer and no spawn in flight, and a spawn in flight means a
   * starting pane.
   */
  ghost predicate TimerMeansRunning(m: Machine)
  {
    && (m.stabilityPending ==> m.status == Running)
    && (m.backoffPending ==> !m.stabilityPending && m.spawning.None?)
    && (m.spawning.Some? ==> m.status == Starting)
  }

  /**
   * With the stability timer cancelled on exit, a crash loop gets at most
   * the budget's worth of automatic restarts.
   */
  lemma {:induction false} FixedBudgetHolds(m: Machine, p: Policy, trace: seq<Event>)
    requires TimerMeansRunning(m)
    requires CrashLoop(m, p, trace, true)
    ensures m.restartCount + AutoRestarts(m, p, trace, true) <= if m.restartCount > EffectiveMax(p) then m.restartCount else EffectiveMax(p)
    decreases |trace|
  {
    if |trace| > 0 {
      var next := StepFixed(m, p, trace[0]);
      assert TimerMeansRunning(next);
      FixedBudgetHolds(next, p, trace[1..]);
    }
  }

  /**
   * As written, a stability timer armed by a respawn still fires after that
   * process has died: with `maxRestarts = 2`, three exits, each before its
   * window elapsed, get three automatic restarts.
   */
  lemma AsWrittenBudgetExceeded()
    ensures var p := Policy(true, Some(2));
      var trace := [Exit, BackoffFired, SpawnDone(true), Exit, StabilityFired, BackoffFired, SpawnDone(true), Exit];
      && CrashLoop(Running0(), p, trace, false)
      && AutoRestarts(Running0(), p, trace, false) == 3
      && EffectiveMax(p) == 2
  {
    var p := Policy(true, Some(2));
    var trace := [Exit, BackoffFired, SpawnDone(true), Exit, StabilityFired, BackoffFired, SpawnDone(true), Exit];
    var m4 := Step(Step(Step(Step(Running0(), p, Exit), p, BackoffFired), p, SpawnDone(true)), p, Exit);
    assert m4 == Machine(Dead, 2, true, true, None, false, true);
    AsWrittenTail(m4, p);
    assert trace[4..] == [StabilityFired, BackoffFired, SpawnDone(true), Exit];
  }

  /** The second half of that trace: the stale stability timer resets the count, and the next exit restarts again. */
  lemma AsWrittenTail(m4: Machine, p: Policy)
    requires p == Policy(true, Some(2)) && m4 == Machine(Dead, 2, true, true, None, false, true)
    ensures var trace := [StabilityFired, BackoffFired, SpawnDone(true), Exit];
      && CrashLoop(m4, p, trace, false)
      && AutoRestarts(m4, p, trace, false) == 1
  {
    var m5 := Step(m4, p, StabilityFired);
    var m6 := Step(m5, p, BackoffFired);
    var m7 := Step(m6, p, SpawnDone(true));
    assert m5.restartCount == 0;
    assert m7.status == Running && m7.restartCount == 0;
  }

  /** The same event sequence under the corrected policy: two restarts, then the pane waits for Enter. */
  lemma FixedBudgetExample()
    ensures var p := Policy(true, Some(2));
      var trace := [Exit, BackoffFired, SpawnDone(true), Exit, StabilityFired, BackoffFired, SpawnDone(true), Exit];
      && AutoRestarts(Running0(), p, trace, true) == 2
      && Run(Running0(), p, trace, true).status == Dead
      && Run(Running0(), p, trace, true).awaitingEnter
  {
    var p := Policy(true, Some(2));
    var m4 := StepFixed(StepFixed(StepFixed(StepFixed(Running0(), p, Exit), p, BackoffFired), p, SpawnDone(true)), p, Exit);
    assert m4.restartCount == 2 && !m4.stabilityPending;
  }

  // -- Which workspaces have a tab --------------------------------------------

  /**
   * The two ways the renderer's tab map changes within one page load: a tab
   * is added for a workspace just created, and a tab is closed.  The tabs
   * of the stored workspaces are added when the page loads, which is the
   * starting state; a reload discards every pending timer with the page.
   */
  datatype TabEvent = WorkspaceCreated(id: string) | TabClosedFor(id: string)

  /** The workspace ids that have a tab, and every id that had one since the page loaded. */
  datatype TabMap = TabMap(open: set<string>, seen: set<string>)

  function TabStep(t: TabMap, e: TabEvent): (r: TabMap)
    ensures t.open <= t.seen ==> r.open <= r.seen
    ensures e.WorkspaceCreated? ==> r.open == t.open + {e.id}
    ensures e.TabClosedFor? ==> r.open == t.open - {e.id} && r.seen == t.seen
  {
    match e
    case WorkspaceCreated(id) => TabMap(t.open + {id}, t.seen + {id})
    case TabClosedFor(id) => t.(open := t.open - {id})
  }

  function TabsAfter(t: TabMap, events: seq<TabEvent>): TabMap
    decreases |events|
  {
    if |events| == 0 then t else TabsAfter(TabStep(t, events[0]), events[1..])
  }

  /** Every created workspace gets a UUID that no tab of this page has had. */
  predicate FreshCreations(t: TabMap, events: seq<TabEvent>)
    decreases |events|
  {
    |events| == 0 ||
      ((events[0].WorkspaceCreated? ==> events[0].id !in t.seen) && FreshCreations(TabStep(t, events[0]), events[1..]))
  }

  /**
   * A workspace whose tab was closed has no tab again for the rest of the
   * page, so `tabs.has(tabId)` in a pending backoff stays false.
   */
  lemma {:induction false} ClosedTabNeverReturns(t: TabMap, events: seq<TabEvent>, id: string)
    requires id in t.seen && id !in t.open
    requires FreshCreations(t, events)
    ensures id !in TabsAfter(t, events).open
    decreases |events|
  {
    if |events| > 0 {
      ClosedTabNeverReturns(TabStep(t, events[0]), events[1..], id);
    }
  }
}

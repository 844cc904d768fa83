/**
 * One open tab's pane layout and the structural edits the renderer performs
 * on it: split the active pane, close a pane, close the split in a direction,
 * plus the tab-status aggregation and tab cycling helpers.  Timers, DOM work
 * and the terminal emulator are not part of the state; the asynchronous
 * spawn in the middle of a split is the boundary between the two steps
 * `SplitStart` and `SplitFinish`.
 */
module Tabs {
  import opened Wrappers
  import opened Strings
  import opened PaneTree

  /** `MAX_PANES_PER_TAB`. */
  const MaxPanesPerTab: nat := 4

  /** `${workspaceId}:pane-${paneIndex}`. */
  function PaneId(ws: string, k: nat): (id: string)
    ensures StartsWith(id, ws + ":") && |id| > |ws| + 1
  {
    ws + ":pane-" + NatToString(k)
  }

  /** Two pane ids of one workspace are equal only when their indices are. */
  lemma PaneIdInjective(ws: string, a: nat, b: nat)
    requires PaneId(ws, a) == PaneId(ws, b)
    ensures a == b
  {
    var pre := ws + ":pane-";
    assert PaneId(ws, a)[|pre|..] == NatToString(a);
    assert PaneId(ws, b)[|pre|..] == NatToString(b);
    NatToStringInjective(a, b);
  }

  /**
   * The startup command is sent only to a pane whose id ends with ":pane-0",
   * which among a workspace's pane ids is exactly the initial pane.
   */
  lemma {:induction false} StartupPaneIsInitial(ws: string, k: nat)
    ensures EndsWith(PaneId(ws, k), ":pane-0") <==> k == 0
  {
    var s := NatToString(k);
    var id := PaneId(ws, k);
    assert id[|id| - |s|..] == s;
    if k == 0 {
      assert id[|id| - 7..] == ":pane-0";
    }
    if EndsWith(id, ":pane-0") {
      assert id[|id| - 7..][5] == id[|id| - 2] == '-';
      assert id[|id| - 7..][6] == id[|id| - 1] == '0';
      assert forall i :: |id| - |s| <= i < |id| ==> IsDigit(id[i]);
      assert !IsDigit(id[|id| - 2]);
      assert |s| == 1 && s[0] == '0';
      assert s == "0";
      NatToStringZero(k);
    }
  }

  /** `ws` has issued the id `id` at some index up to `counter`. */
  ghost predicate Issued(ws: string, counter: nat, id: string)
  {
    exists k :: 0 <= k <= counter && id == PaneId(ws, k)
  }

  /**
   * The renderer's per-tab layout state.  `pendingSplit` is the per-tab
   * in-flight guard: it holds the id of the pane whose spawn a split is
   * waiting for.
   */
  datatype Tab = Tab(
    workspaceId: string,
    root: PaneNode,
    activePaneId: string,
    paneCounter: nat,
    pendingSplit: Option<string>)

  /**
   * The layout invariant: distinct ids, all drawn from the tab's counter, at
   * most four panes, a pending split names the newest index, and outside a
   * split the active id names a pane.
   */
  ghost predicate Valid(t: Tab)
  {
    && Unique(Ids(t.root))
    && (forall id :: id in Ids(t.root) ==> Issued(t.workspaceId, t.paneCounter, id))
    && LeafCount(t.root) <= MaxPanesPerTab
    && (t.pendingSplit.Some? ==> t.pendingSplit.value == PaneId(t.workspaceId, t.paneCounter))
    && t.activePaneId in Ids(t.root)
  }

  /** `addWorkspaceTab`: a single idle pane `pane-0`, active, with the counter at 0. */
  function NewTab(ws: string): (t: Tab)
    ensures Valid(t)
    ensures Ids(t.root) == [PaneId(ws, 0)] && t.activePaneId == PaneId(ws, 0)
    ensures t.paneCounter == 0 && t.pendingSplit.None?
  {
    var id := PaneId(ws, 0);
    var t := Tab(ws, Leaf(id, Idle), id, 0, None);
    assert Issued(ws, 0, id);
    t
  }

  /** Why a split request did nothing. */
  datatype SplitRejection = InFlight | AtCapacity | NoActivePane

  datatype SplitStep =
    | Rejected(reason: SplitRejection)
    | Started(tab: Tab, spawnId: string)

  /**
   * The synchronous part of `splitPane`: the guards, then the structural
   * edit that wraps the active leaf and a new `Starting` leaf in a split,
   * and the spawn request for the new pane.
   */
  function SplitStart(t: Tab, dir: Direction): (r: SplitStep)
    ensures t.pendingSplit.Some? <==> r == Rejected(InFlight)
    ensures t.pendingSplit.None? && LeafCount(t.root) >= MaxPanesPerTab <==> r == Rejected(AtCapacity)
    ensures r.Started? <==>
      t.pendingSplit.None? && LeafCount(t.root) < MaxPanesPerTab && t.activePaneId in Ids(t.root)
    ensures r.Started? ==>
      var p := FindPath(t.root, t.activePaneId).value;
      var newId := PaneId(t.workspaceId, t.paneCounter + 1);
      && r.spawnId == newId
      && r.tab.workspaceId == t.workspaceId
      && r.tab.paneCounter == t.paneCounter + 1
      && r.tab.pendingSplit == Some(newId)
      && r.tab.activePaneId == t.activePaneId
      && r.tab.root == ReplaceAt(t.root, p, Split(dir, At(t.root, p), Leaf(newId, Starting), 0.5))
      && ValidPath(r.tab.root, p)
      && At(r.tab.root, p) == Split(dir, At(t.root, p), Leaf(newId, Starting), 0.5)
      && Ids(r.tab.root) == IdsBefore(t.root, p) + [t.activePaneId, newId] + IdsAfter(t.root, p)
      && LeafCount(r.tab.root) == LeafCount(t.root) + 1
  {
    if t.pendingSplit.Some? then Rejected(InFlight)
    else if LeafCount(t.root) >= MaxPanesPerTab then Rejected(AtCapacity)
    else
      match FindPath(t.root, t.activePaneId)
      case None => Rejected(NoActivePane)
      case Some(p) =>
        var counter := t.paneCounter + 1;
        var newId := PaneId(t.workspaceId, counter);
        var active := At(t.root, p);
        var root := ReplaceAt(t.root, p, Split(dir, active, Leaf(newId, Starting), 0.5));
        IdsAround(t.root, p);
        ReplaceAtIds(t.root, p, Split(dir, active, Leaf(newId, Starting), 0.5));
        Started(Tab(t.workspaceId, root, t.activePaneId, counter, Some(newId)), newId)
  }

  /** A split changes nothing outside the active pane's position: every disjoint subtree is as it was. */
  lemma SplitStartFrame(t: Tab, dir: Direction, q: Path)
    requires SplitStart(t, dir).Started?
    requires var p := FindPath(t.root, t.activePaneId).value;
      ValidPath(t.root, q) && !(p <= q) && !(q <= p)
    ensures ValidPath(SplitStart(t, dir).tab.root, q)
    ensures At(SplitStart(t, dir).tab.root, q) == At(t.root, q)
  {
    var p := FindPath(t.root, t.activePaneId).value;
    var newId := PaneId(t.workspaceId, t.paneCounter + 1);
    ReplaceAtFrame(t.root, p, Split(dir, At(t.root, p), Leaf(newId, Starting), 0.5), q);
  }

  /** A freshly drawn index gives an id no pane of a valid tab carries. */
  lemma NextIdFresh(t: Tab)
    requires Valid(t)
    ensures PaneId(t.workspaceId, t.paneCounter + 1) !in Ids(t.root)
    ensures forall k :: 0 <= k <= t.paneCounter ==> PaneId(t.workspaceId, k) != PaneId(t.workspaceId, t.paneCounter + 1)
  {
    var nextId := PaneId(t.workspaceId, t.paneCounter + 1);
    forall k | 0 <= k <= t.paneCounter
      ensures PaneId(t.workspaceId, k) != nextId
    {
      if PaneId(t.workspaceId, k) == nextId {
        PaneIdInjective(t.workspaceId, k, t.paneCounter + 1);
      }
    }
  }

  /** A split keeps the layout invariant: the new id is fresh and the cap is respected. */
  lemma SplitStartValid(t: Tab, dir: Direction)
    requires Valid(t)
    requires SplitStart(t, dir).Started?
    ensures Valid(SplitStart(t, dir).tab)
  {
    var r := SplitStart(t, dir).tab;
    var p := FindPath(t.root, t.activePaneId).value;
    var newId := PaneId(t.workspaceId, t.paneCounter + 1);
    NextIdFresh(t);
    IdsAround(t.root, p);
    var pre, post := IdsBefore(t.root, p), IdsAfter(t.root, p);
    assert Ids(At(t.root, p)) == [t.activePaneId];
    assert Ids(t.root) == pre + [t.activePaneId] + post;
    UniqueConcat(pre + [t.activePaneId], post);
    UniqueConcat(pre, [t.activePaneId]);
    UniqueConcat(pre, [t.activePaneId, newId]);
    UniqueConcat(pre + [t.activePaneId, newId], post);
    assert Ids(r.root) == pre + [t.activePaneId, newId] + post;
    forall id | id in Ids(r.root)
      ensures Issued(r.workspaceId, r.paneCounter, id)
    {
      if id == newId {
        assert newId == PaneId(t.workspaceId, t.paneCounter + 1);
      } else {
        assert id in Ids(t.root);
        var k :| 0 <= k <= t.paneCounter && id == PaneId(t.workspaceId, k);
      }
    }
  }

  /** Ids issued by a tab never come back: every later split draws an index above all earlier ones. */
  lemma SplitIdsNeverRepeat(t: Tab, dir: Direction, k: nat)
    requires Valid(t) && SplitStart(t, dir).Started?
    requires k <= t.paneCounter
    ensures SplitStart(t, dir).spawnId != PaneId(t.workspaceId, k)
  {
    NextIdFresh(t);
  }

  /** Give the leaf `id` the status `s`; the shape and every other leaf stay as they were. */
  function SetStatus(n: PaneNode, id: string, s: Status): (r: PaneNode)
    ensures Ids(r) == Ids(n)
    ensures forall i :: 0 <= i < |Leaves(r)| ==>
      Leaves(r)[i].status == (if Ids(n)[i] == id then s else Leaves(n)[i].status)
  {
    match n
    case Leaf(lid, st) => if lid == id then Leaf(lid, s) else n
    case Split(d, a, b, ratio) => Split(d, SetStatus(a, id, s), SetStatus(b, id, s), ratio)
  }

  /**
   * The tail of `splitPane`, once `spawnPaneTerminal` has come back: the new
   * pane is `Running` or `Dead`, it becomes the active pane, and the guard is
   * released.  As written, the new pane is activated even when it has been
   * closed while the spawn was in flight.
   */
  function SplitFinish(t: Tab, spawned: bool): (r: Tab)
    ensures t.pendingSplit.None? ==> r == t
    ensures t.pendingSplit.Some? ==>
      && r.pendingSplit.None?
      && r.activePaneId == t.pendingSplit.value
      && Ids(r.root) == Ids(t.root)
      && r.paneCounter == t.paneCounter
  {
    match t.pendingSplit
    case None => t
    case Some(newId) =>
      var root := SetStatus(t.root, newId, if spawned then Running else Dead);
      t.(root := root, activePaneId := newId, pendingSplit := None)
  }

  /** When the new pane is still there, finishing a split keeps the layout invariant. */
  lemma SplitFinishValid(t: Tab, spawned: bool)
    requires Valid(t) && t.pendingSplit.Some? && t.pendingSplit.value in Ids(t.root)
    ensures Valid(SplitFinish(t, spawned))
  {
  }

  /** What `closePaneById` does with a pane id. */
  datatype CloseOutcome =
    | NoSuchPane
    | CloseWholeTab
    | Closed(tab: Tab, killed: string)

  /**
   * `closePaneById`: closing the only pane closes the tab; otherwise the
   * pane's process is killed, its parent split is replaced by the sibling
   * subtree, and the sibling's first leaf becomes active.
   */
  function ClosePane(t: Tab, paneId: string): (r: CloseOutcome)
    ensures r == NoSuchPane <==> paneId !in Ids(t.root)
    ensures r == CloseWholeTab <==> t.root.Leaf? && t.root.id == paneId
    ensures r.Closed? ==>
      var rm := CloseInNode(t.root, paneId).value;
      && r.killed == paneId
      && r.tab.root == rm.tree
      && r.tab.activePaneId == Ids(rm.sibling)[0]
      && r.tab.paneCounter == t.paneCounter
      && r.tab.pendingSplit == t.pendingSplit
      && r.tab.workspaceId == t.workspaceId
  {
    match FindPaneById(t.root, paneId)
    case None => NoSuchPane
    case Some(pane) =>
      if t.root == pane then CloseWholeTab
      else
        var rm := CloseInNode(t.root, paneId).value;
        Closed(t.(root := rm.tree, activePaneId := Ids(rm.sibling)[0]), paneId)
  }

  /**
   * Closing a pane of a valid tab removes exactly that pane, keeps the others
   * in order, lowers the count by one, and keeps the layout invariant; the
   * new active pane is one of the survivors.
   */
  lemma ClosePaneValid(t: Tab, paneId: string)
    requires Valid(t) && ClosePane(t, paneId).Closed?
    ensures Ids(ClosePane(t, paneId).tab.root) == Without(Ids(t.root), paneId)
    ensures LeafCount(ClosePane(t, paneId).tab.root) == LeafCount(t.root) - 1
    ensures Valid(ClosePane(t, paneId).tab)
  {
    var r := ClosePane(t, paneId).tab;
    CloseInNodeIds(t.root, paneId);
    var rm := CloseInNode(t.root, paneId).value;
    ReplaceAtIds(t.root, rm.parent, rm.sibling);
    assert Ids(rm.sibling)[0] in Ids(r.root);
  }

  datatype CloseSplitResult = CloseSplitResult(tab: Tab, killed: seq<string>)

  /**
   * `closeSplitDirection`: find the nearest enclosing split of the active
   * pane in `dir`; kill every pane of its other child and promote the child
   * that holds the active pane into the split's place.
   */
  function CloseSplitDirection(t: Tab, dir: Direction): (r: CloseSplitResult)
    ensures t.activePaneId !in Ids(t.root) ==> r == CloseSplitResult(t, [])
    ensures FindParentSplit(t.root, t.activePaneId, dir).None? ==> r == CloseSplitResult(t, [])
    ensures t.activePaneId in Ids(t.root) && FindParentSplit(t.root, t.activePaneId, dir).Some? ==>
      var p := FindParentSplit(t.root, t.activePaneId, dir).value;
      var s := At(t.root, p);
      var keep := if t.activePaneId in Ids(s.first) then s.first else s.second;
      var drop := if t.activePaneId in Ids(s.first) then s.second else s.first;
      && r.killed == Ids(drop)
      && ValidPath(r.tab.root, p) && At(r.tab.root, p) == keep
      && Ids(r.tab.root) == IdsBefore(t.root, p) + Ids(keep) + IdsAfter(t.root, p)
      && (forall q :: ValidPath(t.root, q) && !(p <= q) && !(q <= p) ==>
            ValidPath(r.tab.root, q) && At(r.tab.root, q) == At(t.root, q))
      && r.tab.activePaneId == t.activePaneId
      && r.tab.paneCounter == t.paneCounter
      && r.tab.pendingSplit == t.pendingSplit
  {
    match FindPaneById(t.root, t.activePaneId)
    case None => CloseSplitResult(t, [])
    case Some(active) =>
      match FindParentSplit(t.root, active.id, dir)
      case None => CloseSplitResult(t, [])
      case Some(p) =>
        var s := At(t.root, p);
        var activeIndex := if active.id in Ids(s.first) then 0 else 1;
        var sibling := Child(s, 1 - activeIndex);
        var survivor := Child(s, activeIndex);
        var root := ReplaceAt(t.root, p, survivor);
        ReplaceAtIds(t.root, p, survivor);
        forall q | ValidPath(t.root, q) && !(p <= q) && !(q <= p)
          ensures ValidPath(root, q) && At(root, q) == At(t.root, q)
        {
          ReplaceAtFrame(t.root, p, survivor, q);
        }
        // The survivor always holds the active pane, so the source's fallback
        // to the survivor's first leaf never fires and the active id stays.
        CloseSplitResult(t.(root := root), Ids(sibling))
  }

  /** Dropping one half of a block from a sequence without repeats leaves a sequence without repeats. */
  lemma UniqueDropHalf(pre: seq<string>, keep: seq<string>, drop: seq<string>, post: seq<string>, keepFirst: bool)
    requires Unique(pre + (if keepFirst then keep + drop else drop + keep) + post)
    ensures Unique(pre + keep + post)
  {
    var m := if keepFirst then keep + drop else drop + keep;
    UniqueConcat(pre + m, post);
    UniqueConcat(pre, m);
    if keepFirst {
      UniqueConcat(keep, drop);
    } else {
      UniqueConcat(drop, keep);
    }
    assert forall x :: x in keep ==> x in m;
    UniqueConcat(pre, keep);
    assert forall x :: x in pre + keep ==> x in pre + m;
    UniqueConcat(pre + keep, post);
  }

  /** Dropping one half of a block removes exactly that half's elements. */
  lemma DropHalfMultiset(pre: seq<string>, keep: seq<string>, drop: seq<string>, post: seq<string>, keepFirst: bool)
    ensures multiset(pre + (if keepFirst then keep + drop else drop + keep) + post) ==
      multiset(pre + keep + post) + multiset(drop)
  {
    var m := if keepFirst then keep + drop else drop + keep;
    assert multiset(m) == multiset(keep) + multiset(drop);
    calc {
      multiset(pre + m + post);
      multiset(pre) + multiset(m) + multiset(post);
      multiset(pre) + multiset(keep) + multiset(post) + multiset(drop);
      multiset(pre + keep + post) + multiset(drop);
    }
  }

  /**
   * Closing a split in a valid tab removes exactly the killed panes (at least
   * one), keeps the active pane, and keeps the layout invariant.
   */
  lemma CloseSplitDirectionValid(t: Tab, dir: Direction)
    requires Valid(t)
    requires FindParentSplit(t.root, t.activePaneId, dir).Some?
    ensures var r := CloseSplitDirection(t, dir);
      && 1 <= |r.killed|
      && multiset(Ids(t.root)) == multiset(Ids(r.tab.root)) + multiset(r.killed)
      && r.tab.activePaneId in Ids(r.tab.root)
      && Valid(r.tab)
  {
    var r := CloseSplitDirection(t, dir);
    var p := FindParentSplit(t.root, t.activePaneId, dir).value;
    var s := At(t.root, p);
    var inFirst := t.activePaneId in Ids(s.first);
    var keep := if inFirst then s.first else s.second;
    var drop := if inFirst then s.second else s.first;
    IdsAround(t.root, p);
    var pre, post := IdsBefore(t.root, p), IdsAfter(t.root, p);
    var m := if inFirst then Ids(keep) + Ids(drop) else Ids(drop) + Ids(keep);
    assert Ids(s) == m;
    assert Ids(t.root) == pre + m + post;
    assert Ids(r.tab.root) == pre + Ids(keep) + post;
    UniqueDropHalf(pre, Ids(keep), Ids(drop), post, inFirst);
    DropHalfMultiset(pre, Ids(keep), Ids(drop), post, inFirst);
    assert forall x :: x in Ids(r.tab.root) ==> x in Ids(t.root);
    assert t.activePaneId in Ids(keep);
  }

  /** The renderer's overall tab status: running beats starting beats idle beats dead. */
  function Rank(s: Status): nat
  {
    match s
    case Dead => 0
    case Idle => 1
    case Starting => 2
    case Running => 3
  }

  /** The highest-ranked status among `ss` (Dead for none). */
  function Strongest(ss: seq<Status>): (r: Status)
    ensures forall i :: 0 <= i < |ss| ==> Rank(ss[i]) <= Rank(r)
    ensures |ss| > 0 ==> r in ss
    ensures |ss| == 0 ==> r == Dead
  {
    if |ss| == 0 then Dead
    else
      var rest := Strongest(ss[1..]);
      if Rank(ss[0]) >= Rank(rest) then ss[0] else rest
  }

  function Statuses(n: PaneNode): (ss: seq<Status>)
    ensures |ss| == |Leaves(n)|
    ensures forall i :: 0 <= i < |ss| ==> ss[i] == Leaves(n)[i].status
  {
    seq(|Leaves(n)|, i requires 0 <= i < |Leaves(n)| => Leaves(n)[i].status)
  }

  /**
   * `updateTabStatus`: running if any pane runs, else starting if any pane
   * starts, else dead if every pane is dead, else idle.
   */
  function TabStatus(root: PaneNode): (r: Status)
    ensures r == Running <==> SomePaneIs(root, Running)
    ensures r == Starting <==> !SomePaneIs(root, Running) && SomePaneIs(root, Starting)
    ensures r == Dead <==> forall i :: 0 <= i < |Leaves(root)| ==> Leaves(root)[i].status == Dead
    ensures r == Idle <==> !SomePaneIs(root, Running) && !SomePaneIs(root, Starting) && SomePaneIs(root, Idle)
  {
    var ss := Statuses(root);
    assert forall s :: s in ss <==> SomePaneIs(root, s) by {
      forall s
        ensures s in ss <==> SomePaneIs(root, s)
      {
        if SomePaneIs(root, s) {
          var i :| 0 <= i < |Leaves(root)| && Leaves(root)[i].status == s;
          assert ss[i] == s;
        }
      }
    }
    AllDead(root);
    Strongest(ss)
  }

  /** Every status is Dead exactly when every pane is dead. */
  lemma AllDead(root: PaneNode)
    ensures (forall i :: 0 <= i < |Statuses(root)| ==> Statuses(root)[i] == Dead)
      <==> (forall i :: 0 <= i < |Leaves(root)| ==> Leaves(root)[i].status == Dead)
  {
    if forall i :: 0 <= i < |Leaves(root)| ==> Leaves(root)[i].status == Dead {
      forall i | 0 <= i < |Statuses(root)|
        ensures Statuses(root)[i] == Dead
      {
        assert Leaves(root)[i].status == Dead;
      }
    } else {
      var i :| 0 <= i < |Leaves(root)| && Leaves(root)[i].status != Dead;
      assert Statuses(root)[i] != Dead;
    }
  }

  /** Some pane of the tree has status `s`. */
  predicate SomePaneIs(root: PaneNode, s: Status)
  {
    exists i :: 0 <= i < |Leaves(root)| && Leaves(root)[i].status == s
  }

  /** JavaScript's `%` on integers: the remainder takes the sign of the dividend. */
  function JsRem(a: int, n: int): (r: int)
    requires n > 0
    ensures a >= 0 ==> 0 <= r < n
    ensures a < 0 ==> -n < r <= 0
    ensures 0 <= a < n ==> r == a
    ensures n <= a < 2 * n ==> r == a - n
    ensures a == JsQuot(a, n) * n + r
    decreases if a >= 0 then a else -a
  {
    if 0 <= a < n || -n < a < 0 then a
    else if a >= n then
      var r := JsRem(a - n, n);
      assert (JsQuot(a - n, n) + 1) * n == JsQuot(a - n, n) * n + n;
      r
    else
      var r := JsRem(a + n, n);
      assert (JsQuot(a + n, n) - 1) * n == JsQuot(a + n, n) * n - n;
      r
  }

  /** The quotient that goes with `JsRem`: the quotient rounded toward zero. */
  function JsQuot(a: int, n: int): int
    requires n > 0
    decreases if a >= 0 then a else -a
  {
    if 0 <= a < n || -n < a < 0 then 0
    else if a >= n then JsQuot(a - n, n) + 1
    else JsQuot(a + n, n) - 1
  }

  /**
   * `cycleTab`: the index of the tab to activate among `count` open tabs,
   * starting from `current` (-1 when no tab is active), or None when no tab
   * is open.  Next wraps from the last tab to the first and previous from
   * the first to the last; with no active tab, next picks the first tab and
   * previous the second-to-last.
   */
  function CycleTab(count: nat, current: int, direction: int): (r: Option<int>)
    requires -1 <= current < count
    ensures count == 0 <==> r.None?
    ensures r.Some? && direction == 1 ==> r.value == (if current + 1 < count then current + 1 else 0)
    ensures r.Some? && direction == -1 && current >= 1 ==> r.value == current - 1
    ensures r.Some? && direction == -1 && current == 0 ==> r.value == count - 1
    ensures r.Some? && direction == -1 && current == -1 ==> r.value == (if count >= 2 then count - 2 else 0)
  {
    if count == 0 then None
    else Some(JsRem(current + direction + count, count))
  }

  /** Cycling forward and then back returns to the tab one started from. */
  lemma CycleTabRoundTrip(count: nat, current: int)
    requires 0 <= current < count
    ensures CycleTab(count, CycleTab(count, current, 1).value, -1) == Some(current)
  {
  }

  /** `goToTabByIndex`: an index past the last open tab does nothing. */
  function GoToTab(count: nat, index: int): (r: Option<nat>)
    requires 0 <= index
    ensures r.Some? <==> index < count
    ensures r.Some? ==> r.value == index
  {
    if index < count then Some(index) else None
  }
}
